/** The attendance policy of the clock-in (`store`), clock-out (`update`) and delete (`destroy`)
    actions, stated as pure transitions of the two tables, with the invariants they keep. */
module AttendancePolicy {
  import opened Models
  import opened Seqs

  /** The `attendances` and `attendance_histories` tables, each with its next auto-increment id. */
  datatype Db = Db(
    attendances: seq<Attendance>,
    histories: seq<AttendanceHistory>,
    nextAttendanceId: nat,
    nextHistoryId: nat)

  /** A fresh database: both tables empty, auto-increment ids starting at 1. */
  const Empty := Db([], [], 1, 1)

  /** What an action answers. */
  datatype Outcome =
    | Created             // clock-in recorded
    | Ok                  // clock-out recorded, or record deleted
    | AlreadyClockedIn    // a record already exists for the employee today
    | LateNoDescription   // late clock-in without a description
    | NotClockedIn        // clock-out with no record today
    | AlreadyClockedOut   // clock-out on a record that is already closed
    | EarlyNoDescription  // early clock-out without a description
    | LateEarlyForbidden  // early clock-out by an employee who arrived late
    | DeleteFailed        // delete of an id that does not exist (findOrFail throws)
  {
    /** The HTTP status the controller answers with. */
    function HttpStatus(): nat {
      match this
      case Created => 201
      case Ok => 200
      case AlreadyClockedIn => 400
      case LateNoDescription => 422
      case NotClockedIn => 404
      case AlreadyClockedOut => 400
      case EarlyNoDescription => 422
      case LateEarlyForbidden => 403
      case DeleteFailed => 500
    }
  }

  /** The state after an action together with its answer. */
  datatype Step = Step(db: Db, outcome: Outcome)

  /** The record is the employee's and was clocked in on `day` (`where employee_id` and `whereDate clock_in`). */
  predicate OnDay(a: Attendance, employeeId: nat, day: nat) {
    a.employeeId == employeeId && a.clockIn.day == day
  }

  /** `->first()` of that query: the position of the first matching record, if any. */
  function FirstOnDay(attendances: seq<Attendance>, employeeId: nat, day: nat): (r: Option<nat>)
    ensures r.Some? ==> r.value < |attendances| && OnDay(attendances[r.value], employeeId, day)
    ensures r.Some? ==> forall j :: 0 <= j < r.value ==> !OnDay(attendances[j], employeeId, day)
    ensures r.None? <==> forall j :: 0 <= j < |attendances| ==> !OnDay(attendances[j], employeeId, day)
  {
    if attendances == [] then None
    else if OnDay(attendances[0], employeeId, day) then Some(0)
    else match FirstOnDay(attendances[1..], employeeId, day)
      case None => None
      case Some(k) => Some(k + 1)
  }

  /** `attendanceHistory()->where('attendance_type', t)->exists()` for the record with id `attendanceId`. */
  predicate HasHistory(histories: seq<AttendanceHistory>, attendanceId: nat, attendanceType: nat) {
    exists i :: 0 <= i < |histories| && histories[i].attendanceId == attendanceId
                && histories[i].attendanceType == attendanceType
  }

  /** `now` is strictly after today's `max_clock_in_time`. */
  predicate IsLate(now: Timestamp, department: Department) {
    After(now, WithTimeOfDay(now, department.maxClockInTime))
  }

  /** `now` is strictly before today's `max_clock_out_time`. */
  predicate IsEarly(now: Timestamp, department: Department) {
    Before(now, WithTimeOfDay(now, department.maxClockOutTime))
  }

  /** The rows of `histories` that `rest` keeps unchanged at the front: the log is only appended to. */
  predicate AppendOnly(histories: seq<AttendanceHistory>, rest: seq<AttendanceHistory>) {
    |histories| <= |rest| && forall i :: 0 <= i < |histories| ==> rest[i] == histories[i]
  }

  /** Clock-in of `employeeId`, who belongs to `department`, at `now`. */
  function ClockIn(db: Db, employeeId: nat, department: Department, now: Timestamp, description: Option<string>): (r: Step)
    ensures r.outcome == Created || r.outcome == AlreadyClockedIn || r.outcome == LateNoDescription
    ensures r.outcome != Created ==> r.db == db
    ensures r.outcome == AlreadyClockedIn <==>
              exists i :: 0 <= i < |db.attendances| && OnDay(db.attendances[i], employeeId, now.day)
    ensures AppendOnly(db.histories, r.db.histories)
  {
    if FirstOnDay(db.attendances, employeeId, now.day).Some? then Step(db, AlreadyClockedIn)
    else if IsLate(now, department) && !Filled(description) then Step(db, LateNoDescription)
    else
      var attendance := Attendance(db.nextAttendanceId, employeeId, now, None);
      var withRecord := db.(attendances := db.attendances + [attendance], nextAttendanceId := db.nextAttendanceId + 1);
      if IsLate(now, department) then
        var history := AttendanceHistory(db.nextHistoryId, attendance.id, employeeId, now, LateArrival, description.value);
        Step(withRecord.(histories := db.histories + [history], nextHistoryId := db.nextHistoryId + 1), Created)
      else
        Step(withRecord, Created)
  }

  /** Clock-out of `employeeId`, who belongs to `department`, at `now`; the record is found by employee and day. */
  function ClockOut(db: Db, employeeId: nat, department: Department, now: Timestamp, description: Option<string>): (r: Step)
    ensures r.outcome == Ok || r.outcome == NotClockedIn || r.outcome == AlreadyClockedOut
         || r.outcome == EarlyNoDescription || r.outcome == LateEarlyForbidden
    ensures r.outcome != Ok ==> r.db == db
    ensures r.outcome == NotClockedIn <==>
              forall i :: 0 <= i < |db.attendances| ==> !OnDay(db.attendances[i], employeeId, now.day)
    ensures |r.db.attendances| == |db.attendances| && r.db.nextAttendanceId == db.nextAttendanceId
    ensures AppendOnly(db.histories, r.db.histories)
  {
    match FirstOnDay(db.attendances, employeeId, now.day)
    case None => Step(db, NotClockedIn)
    case Some(k) =>
      var attendance := db.attendances[k];
      if attendance.clockOut.Some? then Step(db, AlreadyClockedOut)
      else if IsEarly(now, department) && !Filled(description) then Step(db, EarlyNoDescription)
      else if IsEarly(now, department) && HasHistory(db.histories, attendance.id, LateArrival) then
        Step(db, LateEarlyForbidden)
      else
        var closed := db.(attendances := db.attendances[k := attendance.(clockOut := Some(now))]);
        if IsEarly(now, department) then
          var history := AttendanceHistory(db.nextHistoryId, attendance.id, attendance.employeeId, now, EarlyLeave, description.value);
          Step(closed.(histories := db.histories + [history], nextHistoryId := db.nextHistoryId + 1), Ok)
        else
          Step(closed, Ok)
  }

  /** The `attendances` table without the rows whose id is `id`. */
  function WithoutAttendance(attendances: seq<Attendance>, id: nat): (r: seq<Attendance>)
    ensures forall a :: a in r <==> a in attendances && a.id != id
  {
    Filter(attendances, (a: Attendance) => a.id != id)
  }

  /** The `attendance_histories` table without the rows of the record `id` (`onDelete('cascade')`). */
  function WithoutHistoriesOf(histories: seq<AttendanceHistory>, id: nat): (r: seq<AttendanceHistory>)
    ensures forall h :: h in r <==> h in histories && h.attendanceId != id
  {
    Filter(histories, (h: AttendanceHistory) => h.attendanceId != id)
  }

  /** Delete of the record `id`, cascading to its history rows. */
  function Destroy(db: Db, id: nat): (r: Step)
    ensures r.outcome == Ok || r.outcome == DeleteFailed
    ensures r.outcome == DeleteFailed <==> forall i :: 0 <= i < |db.attendances| ==> db.attendances[i].id != id
    ensures r.outcome == DeleteFailed ==> r.db == db
    ensures r.outcome == Ok ==> forall a :: a in r.db.attendances <==> a in db.attendances && a.id != id
    ensures r.outcome == Ok ==> forall h :: h in r.db.histories <==> h in db.histories && h.attendanceId != id
    ensures r.db.nextAttendanceId == db.nextAttendanceId && r.db.nextHistoryId == db.nextHistoryId
  {
    if exists i :: 0 <= i < |db.attendances| && db.attendances[i].id == id then
      Step(db.(attendances := WithoutAttendance(db.attendances, id),
               histories := WithoutHistoriesOf(db.histories, id)), Ok)
    else
      Step(db, DeleteFailed)
  }

  // ---------------------------------------------------------------------------------------------
  // The table invariant

  function AttendanceKey(a: Attendance): nat { a.id }
  function EmployeeDay(a: Attendance): (nat, nat) { (a.employeeId, a.clockIn.day) }
  function HistoryKey(h: AttendanceHistory): nat { h.id }
  function HistoryOwner(h: AttendanceHistory): nat { h.attendanceId }

  /** `h` annotates `a`: same record and employee, written at the clock-in (type 1) or at the clock-out (type 2). */
  predicate BelongsTo(h: AttendanceHistory, a: Attendance) {
    h.attendanceId == a.id && h.employeeId == a.employeeId &&
    ((h.attendanceType == LateArrival && h.dateAttendance == a.clockIn) ||
     (h.attendanceType == EarlyLeave && a.clockOut == Some(h.dateAttendance)))
  }

  /** What every reachable database satisfies. */
  ghost predicate Inv(db: Db) {
    // primary keys are unique and below the next auto-increment value
    && (forall a :: a in db.attendances ==> a.id < db.nextAttendanceId)
    && (forall h :: h in db.histories ==> h.id < db.nextHistoryId)
    && KeysDistinct(db.attendances, AttendanceKey)
    && KeysDistinct(db.histories, HistoryKey)
    // at most one record per employee per calendar day
    && KeysDistinct(db.attendances, EmployeeDay)
    // at most one history row per record
    && KeysDistinct(db.histories, HistoryOwner)
    // every history row annotates an existing record
    && (forall h :: h in db.histories ==> exists a :: a in db.attendances && BelongsTo(h, a))
    // a clock-out falls on the day of its clock-in
    && (forall a :: a in db.attendances && a.clockOut.Some? ==> a.clockOut.value.day == a.clockIn.day)
  }

  lemma EmptyInv()
    ensures Inv(Empty)
  {
  }

  /** Under the invariant, the employee's record for a day is the one the query finds. */
  lemma TodayRecordIsFirst(db: Db, employeeId: nat, day: nat, k: nat)
    requires Inv(db)
    requires k < |db.attendances| && OnDay(db.attendances[k], employeeId, day)
    ensures FirstOnDay(db.attendances, employeeId, day) == Some(k)
  {
    var f := FirstOnDay(db.attendances, employeeId, day);
    assert f.Some?;
    assert EmployeeDay(db.attendances[f.value]) == EmployeeDay(db.attendances[k]);
  }

  /** A history row of the record at position `k` names that record's id, and no other record has it. */
  lemma OwnerIsUnique(db: Db, h: AttendanceHistory, a: Attendance, k: nat)
    requires Inv(db)
    requires a in db.attendances && BelongsTo(h, a)
    requires k < |db.attendances| && db.attendances[k].id == h.attendanceId
    ensures db.attendances[k] == a
  {
    var i :| 0 <= i < |db.attendances| && db.attendances[i] == a;
    assert AttendanceKey(db.attendances[i]) == AttendanceKey(db.attendances[k]);
  }

  lemma ClockInKeepsInv(db: Db, employeeId: nat, department: Department, now: Timestamp, description: Option<string>)
    requires Inv(db)
    ensures Inv(ClockIn(db, employeeId, department, now, description).db)
  {
    var r := ClockIn(db, employeeId, department, now, description);
    if r.outcome == Created {
      var attendance := Attendance(db.nextAttendanceId, employeeId, now, None);
      assert r.db.attendances == db.attendances + [attendance];
      forall i | 0 <= i < |db.attendances|
        ensures AttendanceKey(db.attendances[i]) != AttendanceKey(attendance)
        ensures EmployeeDay(db.attendances[i]) != EmployeeDay(attendance)
      {
        assert db.attendances[i] in db.attendances;
      }
      AppendKeepsDistinct(db.attendances, attendance, AttendanceKey);
      AppendKeepsDistinct(db.attendances, attendance, EmployeeDay);
      forall h | h in db.histories ensures exists a :: a in r.db.attendances && BelongsTo(h, a) {
        var a :| a in db.attendances && BelongsTo(h, a);
        assert a in r.db.attendances;
      }
      if IsLate(now, department) {
        var history := r.db.histories[|db.histories|];
        assert r.db.histories == db.histories + [history];
        forall i | 0 <= i < |db.histories|
          ensures HistoryKey(db.histories[i]) != HistoryKey(history)
          ensures HistoryOwner(db.histories[i]) != HistoryOwner(history)
        {
          var h := db.histories[i];
          assert h in db.histories;
          var a :| a in db.attendances && BelongsTo(h, a);
        }
        AppendKeepsDistinct(db.histories, history, HistoryKey);
        AppendKeepsDistinct(db.histories, history, HistoryOwner);
        assert BelongsTo(history, attendance);
      }
    }
  }

  lemma ClockOutKeepsInv(db: Db, employeeId: nat, department: Department, now: Timestamp, description: Option<string>)
    requires Inv(db)
    ensures Inv(ClockOut(db, employeeId, department, now, description).db)
  {
    var r := ClockOut(db, employeeId, department, now, description);
    if r.outcome == Ok {
      var k := FirstOnDay(db.attendances, employeeId, now.day).value;
      var attendance := db.attendances[k];
      var closed := attendance.(clockOut := Some(now));
      assert r.db.attendances == db.attendances[k := closed];
      UpdateKeepsDistinct(db.attendances, k, closed, AttendanceKey);
      UpdateKeepsDistinct(db.attendances, k, closed, EmployeeDay);
      forall a | a in r.db.attendances ensures a.id < r.db.nextAttendanceId {
        var i :| 0 <= i < |r.db.attendances| && r.db.attendances[i] == a;
        assert i != k ==> a in db.attendances;
      }
      forall a | a in r.db.attendances && a.clockOut.Some? ensures a.clockOut.value.day == a.clockIn.day {
        var i :| 0 <= i < |r.db.attendances| && r.db.attendances[i] == a;
        assert i != k ==> a in db.attendances;
      }
      // the record was open, so none of its history rows is an early leave: each is still its late arrival
      forall h | h in db.histories ensures exists a :: a in r.db.attendances && BelongsTo(h, a) {
        var a :| a in db.attendances && BelongsTo(h, a);
        if h.attendanceId == attendance.id {
          OwnerIsUnique(db, h, a, k);
          assert BelongsTo(h, closed) && closed == r.db.attendances[k];
        } else {
          var i :| 0 <= i < |db.attendances| && db.attendances[i] == a;
          assert r.db.attendances[i] == a;
        }
      }
      if IsEarly(now, department) {
        var history := r.db.histories[|db.histories|];
        assert r.db.histories == db.histories + [history];
        forall i | 0 <= i < |db.histories|
          ensures HistoryKey(db.histories[i]) != HistoryKey(history)
          ensures HistoryOwner(db.histories[i]) != HistoryOwner(history)
        {
          var h := db.histories[i];
          assert h in db.histories;
          var a :| a in db.attendances && BelongsTo(h, a);
          if h.attendanceId == attendance.id {
            OwnerIsUnique(db, h, a, k);
            assert false;
          }
        }
        AppendKeepsDistinct(db.histories, history, HistoryKey);
        AppendKeepsDistinct(db.histories, history, HistoryOwner);
        assert BelongsTo(history, r.db.attendances[k]);
      }
    }
  }

  lemma DestroyKeepsInv(db: Db, id: nat)
    requires Inv(db)
    ensures Inv(Destroy(db, id).db)
  {
    var r := Destroy(db, id);
    if r.outcome == Ok {
      FilterKeepsDistinct(db.attendances, (a: Attendance) => a.id != id, AttendanceKey);
      FilterKeepsDistinct(db.attendances, (a: Attendance) => a.id != id, EmployeeDay);
      FilterKeepsDistinct(db.histories, (h: AttendanceHistory) => h.attendanceId != id, HistoryKey);
      FilterKeepsDistinct(db.histories, (h: AttendanceHistory) => h.attendanceId != id, HistoryOwner);
      forall h | h in r.db.histories ensures exists a :: a in r.db.attendances && BelongsTo(h, a) {
        var a :| a in db.attendances && BelongsTo(h, a);
        assert a in r.db.attendances;
      }
    }
  }

  // ---------------------------------------------------------------------------------------------
  // Any sequence of requests

  datatype Request =
    | ClockInRequest(employeeId: nat, department: Department, now: Timestamp, description: Option<string>)
    | ClockOutRequest(employeeId: nat, department: Department, now: Timestamp, description: Option<string>)
    | DestroyRequest(id: nat)

  function Handle(db: Db, request: Request): Step {
    match request
    case ClockInRequest(employeeId, department, now, description) => ClockIn(db, employeeId, department, now, description)
    case ClockOutRequest(employeeId, department, now, description) => ClockOut(db, employeeId, department, now, description)
    case DestroyRequest(id) => Destroy(db, id)
  }

  function Run(db: Db, requests: seq<Request>): Db
    decreases |requests|
  {
    if requests == [] then db else Run(Handle(db, requests[0]).db, requests[1..])
  }

  /** Whatever requests arrive, one record per employee per day and one history row per record. */
  lemma {:induction false} RunKeepsInv(db: Db, requests: seq<Request>)
    requires Inv(db)
    ensures Inv(Run(db, requests))
    decreases |requests|
  {
    if requests != [] {
      match requests[0] {
        case ClockInRequest(employeeId, department, now, description) =>
          ClockInKeepsInv(db, employeeId, department, now, description);
        case ClockOutRequest(employeeId, department, now, description) =>
          ClockOutKeepsInv(db, employeeId, department, now, description);
        case DestroyRequest(id) =>
          DestroyKeepsInv(db, id);
      }
      RunKeepsInv(Handle(db, requests[0]).db, requests[1..]);
    }
  }

  /** Every state reached from an empty database satisfies the invariant. */
  lemma ReachableInv(requests: seq<Request>)
    ensures Inv(Run(Empty, requests))
  {
    EmptyInv();
    RunKeepsInv(Empty, requests);
  }

  /** A history row survives every request except the delete of its own record: clock-in and
      clock-out only append to the log, and a delete cascades only to the deleted record's rows. */
  lemma HandleKeepsHistory(db: Db, request: Request, attendanceId: nat, attendanceType: nat)
    requires HasHistory(db.histories, attendanceId, attendanceType)
    requires request != DestroyRequest(attendanceId)
    ensures HasHistory(Handle(db, request).db.histories, attendanceId, attendanceType)
  {
    var i :| 0 <= i < |db.histories| && db.histories[i].attendanceId == attendanceId
             && db.histories[i].attendanceType == attendanceType;
    var after := Handle(db, request).db.histories;
    if request.DestroyRequest? {
      var h := db.histories[i];
      assert h in db.histories;
      assert h in after;
      var j :| 0 <= j < |after| && after[j] == h;
    } else {
      assert after[i] == db.histories[i];
    }
  }

  /** Over any sequence of requests that does not delete the record, its history rows persist. */
  lemma {:induction false} HistoryPersists(db: Db, requests: seq<Request>, attendanceId: nat, attendanceType: nat)
    requires HasHistory(db.histories, attendanceId, attendanceType)
    requires forall i :: 0 <= i < |requests| ==> requests[i] != DestroyRequest(attendanceId)
    ensures HasHistory(Run(db, requests).histories, attendanceId, attendanceType)
    decreases |requests|
  {
    if requests != [] {
      HandleKeepsHistory(db, requests[0], attendanceId, attendanceType);
      assert forall i :: 0 <= i < |requests[1..]| ==> requests[1..][i] == requests[i + 1];
      HistoryPersists(Handle(db, requests[0]).db, requests[1..], attendanceId, attendanceType);
    }
  }

  /** In a reachable state no record carries both a late-arrival and an early-leave row. */
  lemma LateAndEarlyExclusive(db: Db, attendanceId: nat)
    requires Inv(db)
    ensures !(HasHistory(db.histories, attendanceId, LateArrival) && HasHistory(db.histories, attendanceId, EarlyLeave))
  {
  }

  // ---------------------------------------------------------------------------------------------
  // Clock-in

  /** A clock-in on a day that already has a record is refused and changes nothing, whether or not
      that record is already closed. */
  lemma ClockInOncePerDay(db: Db, employeeId: nat, department: Department, now: Timestamp, description: Option<string>, k: nat)
    requires k < |db.attendances| && OnDay(db.attendances[k], employeeId, now.day)
    ensures ClockIn(db, employeeId, department, now, description) == Step(db, AlreadyClockedIn)
  {
  }

  /** After a successful clock-in, any further clock-in on the same day is refused. */
  lemma SecondClockInRefused(db: Db, employeeId: nat, department: Department, now: Timestamp, description: Option<string>,
                             department': Department, now': Timestamp, description': Option<string>)
    requires ClockIn(db, employeeId, department, now, description).outcome == Created
    requires now'.day == now.day
    ensures var db' := ClockIn(db, employeeId, department, now, description).db;
            ClockIn(db', employeeId, department', now', description') == Step(db', AlreadyClockedIn)
  {
    var db' := ClockIn(db, employeeId, department, now, description).db;
    assert OnDay(db'.attendances[|db.attendances|], employeeId, now'.day);
  }

  /** A late clock-in without a description is refused and writes nothing. */
  lemma LateClockInWithoutDescription(db: Db, employeeId: nat, department: Department, now: Timestamp, description: Option<string>)
    requires forall i :: 0 <= i < |db.attendances| ==> !OnDay(db.attendances[i], employeeId, now.day)
    requires now.second > department.maxClockInTime
    requires !Filled(description)
    ensures ClockIn(db, employeeId, department, now, description) == Step(db, LateNoDescription)
  {
    SameDayComparison(now, department.maxClockInTime);
  }

  /** A clock-in at or before the deadline adds one open record stamped `now` and no history row. */
  lemma OnTimeClockIn(db: Db, employeeId: nat, department: Department, now: Timestamp, description: Option<string>)
    requires forall i :: 0 <= i < |db.attendances| ==> !OnDay(db.attendances[i], employeeId, now.day)
    requires now.second <= department.maxClockInTime
    ensures ClockIn(db, employeeId, department, now, description)
         == Step(db.(attendances := db.attendances + [Attendance(db.nextAttendanceId, employeeId, now, None)],
                     nextAttendanceId := db.nextAttendanceId + 1), Created)
  {
    SameDayComparison(now, department.maxClockInTime);
  }

  /** A late clock-in with a description adds one open record and one late-arrival row for it. */
  lemma LateClockInWithDescription(db: Db, employeeId: nat, department: Department, now: Timestamp, description: Option<string>)
    requires forall i :: 0 <= i < |db.attendances| ==> !OnDay(db.attendances[i], employeeId, now.day)
    requires now.second > department.maxClockInTime
    requires Filled(description)
    ensures ClockIn(db, employeeId, department, now, description)
         == Step(Db(db.attendances + [Attendance(db.nextAttendanceId, employeeId, now, None)],
                    db.histories + [AttendanceHistory(db.nextHistoryId, db.nextAttendanceId, employeeId, now,
                                                      LateArrival, description.value)],
                    db.nextAttendanceId + 1, db.nextHistoryId + 1), Created)
  {
    SameDayComparison(now, department.maxClockInTime);
  }

  // ---------------------------------------------------------------------------------------------
  // Clock-out

  /** A clock-out without a record today is refused and changes nothing. */
  lemma ClockOutWithoutClockIn(db: Db, employeeId: nat, department: Department, now: Timestamp, description: Option<string>)
    requires forall i :: 0 <= i < |db.attendances| ==> !OnDay(db.attendances[i], employeeId, now.day)
    ensures ClockOut(db, employeeId, department, now, description) == Step(db, NotClockedIn)
  {
  }

  /** A clock-out when today's record is already closed is refused and changes nothing. */
  lemma ClockOutTwice(db: Db, employeeId: nat, department: Department, now: Timestamp, description: Option<string>, k: nat)
    requires Inv(db)
    requires k < |db.attendances| && OnDay(db.attendances[k], employeeId, now.day)
    requires db.attendances[k].clockOut.Some?
    ensures ClockOut(db, employeeId, department, now, description) == Step(db, AlreadyClockedOut)
  {
    TodayRecordIsFirst(db, employeeId, now.day, k);
  }

  /** An early clock-out without a description is refused, even for an employee who arrived late:
      the description is checked first. */
  lemma EarlyClockOutWithoutDescription(db: Db, employeeId: nat, department: Department, now: Timestamp, description: Option<string>, k: nat)
    requires Inv(db)
    requires k < |db.attendances| && OnDay(db.attendances[k], employeeId, now.day)
    requires db.attendances[k].clockOut.None?
    requires now.second < department.maxClockOutTime
    requires !Filled(description)
    ensures ClockOut(db, employeeId, department, now, description) == Step(db, EarlyNoDescription)
  {
    TodayRecordIsFirst(db, employeeId, now.day, k);
    SameDayComparison(now, department.maxClockOutTime);
  }

  /** An early clock-out with a description is forbidden exactly when the record has a late-arrival row. */
  lemma EarlyClockOutOfLateArrival(db: Db, employeeId: nat, department: Department, now: Timestamp, description: Option<string>, k: nat)
    requires Inv(db)
    requires k < |db.attendances| && OnDay(db.attendances[k], employeeId, now.day)
    requires db.attendances[k].clockOut.None?
    requires now.second < department.maxClockOutTime
    requires Filled(description)
    ensures ClockOut(db, employeeId, department, now, description).outcome == LateEarlyForbidden
        <==> HasHistory(db.histories, db.attendances[k].id, LateArrival)
  {
    TodayRecordIsFirst(db, employeeId, now.day, k);
    SameDayComparison(now, department.maxClockOutTime);
  }

  /** A clock-out at or after the deadline closes today's record at `now`, leaves every other record
      as it was and writes no history row. */
  lemma OnTimeClockOut(db: Db, employeeId: nat, department: Department, now: Timestamp, description: Option<string>, k: nat)
    requires Inv(db)
    requires k < |db.attendances| && OnDay(db.attendances[k], employeeId, now.day)
    requires db.attendances[k].clockOut.None?
    requires now.second >= department.maxClockOutTime
    ensures ClockOut(db, employeeId, department, now, description)
         == Step(db.(attendances := db.attendances[k := db.attendances[k].(clockOut := Some(now))]), Ok)
  {
    TodayRecordIsFirst(db, employeeId, now.day, k);
    SameDayComparison(now, department.maxClockOutTime);
  }

  /** An allowed early clock-out closes today's record at `now`, leaves every other record as it was
      and writes one early-leave row for it. */
  lemma EarlyClockOutWithDescription(db: Db, employeeId: nat, department: Department, now: Timestamp, description: Option<string>, k: nat)
    requires Inv(db)
    requires k < |db.attendances| && OnDay(db.attendances[k], employeeId, now.day)
    requires db.attendances[k].clockOut.None?
    requires now.second < department.maxClockOutTime
    requires Filled(description)
    requires !HasHistory(db.histories, db.attendances[k].id, LateArrival)
    ensures ClockOut(db, employeeId, department, now, description)
         == Step(Db(db.attendances[k := db.attendances[k].(clockOut := Some(now))],
                    db.histories + [AttendanceHistory(db.nextHistoryId, db.attendances[k].id, employeeId, now,
                                                      EarlyLeave, description.value)],
                    db.nextAttendanceId, db.nextHistoryId + 1), Ok)
  {
    TodayRecordIsFirst(db, employeeId, now.day, k);
    SameDayComparison(now, department.maxClockOutTime);
  }
}
