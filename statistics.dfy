/**
 * Attendance statistics (backend/services/statistics_service.py): the
 * workday count of a date range, the per-user counters with the absence
 * formula, who may see which users, and the daily morning and afternoon
 * statuses.
 *
 * Tables are given as the sequences their queries scan. The per-day leave
 * flags are the same procedure as the attendance service's
 * (AttendanceRules.ComputeLeavePeriod); the service keeps a copy of it.
 */
module Statistics {
  import opened Base
  import opened Calendar
  import opened Models
  import opened Listing
  import Holidays
  import AttendanceRules
  import AttendanceService
  import LeaveRepository

  // ---------------------------------------------------------------------
  // Workdays.

  /** `holidays_dict.get(date.isoformat())`: the kind configured for a date. */
  function KindOn(rows: Holidays.Rows, d: Date): (r: Option<string>)
    requires Valid(d)
    ensures r.Some? <==> Holidays.ByDate(rows, IsoFormat(d)).Some?
  {
    var h := Holidays.ConfigOn(rows, IsoFormat(d));
    if h.Some? then Some(h.value.kind) else None
  }

  /** How `calculate_workdays` judges one day: a configured date counts only as a make-up workday, any other from Monday to Friday. */
  predicate Counted(rows: Holidays.Rows, d: Date)
    requires Valid(d)
  {
    match KindOn(rows, d)
    case Some(k) => k == Holidays.MakeUpWorkday
    case None => Weekday(d) < 5
  }

  predicate AllValid(ds: seq<Date>)
  {
    forall i :: 0 <= i < |ds| ==> Valid(ds[i])
  }

  predicate CountedDay(rows: Holidays.Rows, d: Date)
  {
    Valid(d) && Counted(rows, d)
  }

  /** `calculate_workdays` of the walk `ds`. */
  function CountIn(rows: Holidays.Rows, ds: seq<Date>): nat
  {
    Count(ds, (d: Date) => CountedDay(rows, d))
  }

  /** The `while current_date <= end_date` loop of `calculate_workdays`. */
  method CalculateWorkdays(rows: Holidays.Rows, start: Date, end: Date) returns (n: nat)
    requires Valid(start) && Valid(end) && Ordinal(end) < Ordinal(MaxDate)
    ensures n == CountIn(rows, Holidays.Range(start, end))
    ensures Ordinal(start) > Ordinal(end) ==> n == 0
  {
    var current := start;
    n := 0;
    while Ordinal(current) <= Ordinal(end)
      invariant Valid(current)
      invariant n + CountIn(rows, Holidays.Range(current, end)) == CountIn(rows, Holidays.Range(start, end))
      decreases Ordinal(end) - Ordinal(current)
    {
      CountInStep(rows, current, end);
      var h := Holidays.ConfigOn(rows, IsoFormat(current));
      assert KindOn(rows, current) == if h.Some? then Some(h.value.kind) else None;
      if h.Some? {
        if h.value.kind == Holidays.MakeUpWorkday {
          n := n + 1;
        }
      } else if Weekday(current) < 5 {
        n := n + 1;
      }
      current := NextDay(current);
    }
  }

  /** The walk's first day counts on its own; the rest of the range follows. */
  lemma CountInStep(rows: Holidays.Rows, current: Date, end: Date)
    requires Valid(current) && Valid(end) && Ordinal(current) <= Ordinal(end) < Ordinal(MaxDate)
    ensures Valid(NextDay(current)) && Ordinal(NextDay(current)) == Ordinal(current) + 1
    ensures CountIn(rows, Holidays.Range(current, end)) == (if Counted(rows, current) then 1 else 0) + CountIn(rows, Holidays.Range(NextDay(current), end))
  {
    Holidays.RangeCons(current, end);
    CountAppend([current], Holidays.Range(NextDay(current), end), (d: Date) => CountedDay(rows, d));
    assert [current][..0] == [];
  }

  /** `is_workday`: a configured kind decides when it is one of the known ones, the weekday otherwise. */
  predicate IsWorkday(rows: Holidays.Rows, d: Date)
    requires Valid(d)
  {
    match KindOn(rows, d)
    case Some(k) =>
      if k == Holidays.MakeUpWorkday then true
      else if k in {Holidays.StatutoryHoliday, Holidays.CompanyHoliday} then false
      else Weekday(d) < 5
    case None => Weekday(d) < 5
  }

  /** For the three known kinds, a one-day range counts one workday exactly when `is_workday` holds. */
  lemma SingleDayAgreement(rows: Holidays.Rows, d: Date)
    requires Valid(d) && Ordinal(d) < Ordinal(MaxDate)
    requires KindOn(rows, d).Some? ==> KindOn(rows, d).value in Holidays.Kinds
    ensures CountIn(rows, Holidays.Range(d, d)) == 1 <==> IsWorkday(rows, d)
  {
    OneDayCount(rows, d);
    CountedIsWorkday(rows, d);
  }

  /** For the known kinds, `calculate_workdays` and `is_workday` judge a day alike. */
  lemma CountedIsWorkday(rows: Holidays.Rows, d: Date)
    requires Valid(d)
    requires KindOn(rows, d).Some? ==> KindOn(rows, d).value in Holidays.Kinds
    ensures Counted(rows, d) <==> IsWorkday(rows, d)
  {
    KindsDistinct();
    match KindOn(rows, d)
    case None =>
    case Some(k) =>
      assert k == Holidays.MakeUpWorkday || k in {Holidays.StatutoryHoliday, Holidays.CompanyHoliday};
  }

  lemma KindsDistinct()
    ensures Holidays.MakeUpWorkday != Holidays.StatutoryHoliday && Holidays.MakeUpWorkday != Holidays.CompanyHoliday
  {
    assert Holidays.MakeUpWorkday[0] == 'w';
    assert Holidays.StatutoryHoliday[0] == 'h' && Holidays.CompanyHoliday[0] == 'c';
  }

  /** A one-day range counts one exactly when its day is counted. */
  lemma OneDayCount(rows: Holidays.Rows, d: Date)
    requires Valid(d) && Ordinal(d) < Ordinal(MaxDate)
    ensures CountIn(rows, Holidays.Range(d, d)) == if Counted(rows, d) then 1 else 0
  {
    Holidays.RangeCons(d, d);
    var one := Holidays.Range(d, d);
    assert one == [d];
    assert one[..0] == [];
  }

  /**
   * Outside the known kinds the two disagree: `is_workday` falls through to
   * the weekday, while `calculate_workdays` skips every configured day that
   * is not a make-up workday.
   */
  lemma UnknownKindDisagrees(rows: Holidays.Rows, d: Date)
    requires Valid(d) && Ordinal(d) < Ordinal(MaxDate) && Weekday(d) < 5
    requires KindOn(rows, d).Some? && KindOn(rows, d).value !in Holidays.Kinds
    ensures CountIn(rows, Holidays.Range(d, d)) == 0 && IsWorkday(rows, d)
  {
    OneDayCount(rows, d);
  }

  /** `is_workday` agrees with the answer of `check_workday` for the same date's ISO text. */
  lemma IsWorkdayAgreesWithCheck(rows: Holidays.Rows, d: Date)
    requires Valid(d)
    ensures Holidays.CheckWorkday(rows, IsoFormat(d)).Ok?
    ensures Holidays.CheckWorkday(rows, IsoFormat(d)).value.isWorkday == IsWorkday(rows, d)
  {
    var s := IsoFormat(d);
    ParseIsoFormat(d);
    AnswerOfParsed(rows, s, d);
    var h := Holidays.ConfigOn(rows, s);
    assert KindOn(rows, d) == if h.Some? then Some(h.value.kind) else None;
  }

  /** The answer of `check_workday` for a text that reads as `d`, by the configuration of that text. */
  lemma AnswerOfParsed(rows: Holidays.Rows, s: string, d: Date)
    requires ParseYmd(s) == Some(d)
    ensures Holidays.CheckWorkday(rows, s).Ok?
    ensures var h := Holidays.ConfigOn(rows, s);
            Holidays.CheckWorkday(rows, s).value.isWorkday ==
              if h.Some? && h.value.kind in {Holidays.StatutoryHoliday, Holidays.CompanyHoliday} then false
              else if h.Some? && h.value.kind == Holidays.MakeUpWorkday then true
              else Weekday(d) < 5
  {
  }

  const WeekdayNames := ["一", "二", "三", "四", "五", "六", "日"]

  /** `get_weekday_name`. */
  function WeekdayName(d: Date): (r: string)
    requires Valid(d)
    ensures |r| == 1
    ensures r == "六" <==> Weekday(d) == 5
    ensures r == "日" <==> Weekday(d) == 6
  {
    WeekdayNames[Weekday(d)]
  }

  // ---------------------------------------------------------------------
  // Counters.

  /** Python's `int()` of a float: truncation toward zero. */
  function Trunc(x: real): (r: int)
    ensures x >= 0.0 ==> r as real <= x < r as real + 1.0
    ensures x < 0.0 ==> r as real - 1.0 < x <= r as real
  {
    if x >= 0.0 then x.Floor else -((-x).Floor)
  }

  /** `max(0, total_days - present_days - int(leave_days))`. */
  function AbsenceDays(totalDays: int, presentDays: int, leaveDays: real): (r: nat)
    ensures r >= totalDays - presentDays - Trunc(leaveDays)
    ensures r > 0 ==> r == totalDays - presentDays - Trunc(leaveDays)
  {
    var a := totalDays - presentDays - Trunc(leaveDays);
    if a > 0 then a else 0
  }

  /** Half a day of leave is no leave for the absence count, and a day and a half counts one. */
  lemma AbsenceTruncatesLeave(totalDays: int, presentDays: int)
    ensures AbsenceDays(totalDays, presentDays, 0.5) == AbsenceDays(totalDays, presentDays, 0.0)
    ensures AbsenceDays(totalDays, presentDays, 1.5) == AbsenceDays(totalDays, presentDays, 1.0)
  {
  }

  /** Nobody is absent once the present and (truncated) leave days reach the workdays. */
  lemma AbsenceZero(totalDays: int, presentDays: int, leaveDays: real)
    requires leaveDays >= 0.0
    ensures AbsenceDays(totalDays, presentDays, leaveDays) == 0 <==> presentDays + leaveDays.Floor >= totalDays
  {
  }

  const ActiveOvertime := "active"
  const PassiveOvertime := "passive"

  datatype Counts = Counts(
    totalDays: nat,
    presentDays: nat,
    lateDays: nat,
    earlyLeaveDays: nat,
    absenceDays: nat,
    leaveDays: real,
    leaveCount: nat,
    overtimeDays: real,
    overtimeCount: nat,
    activeOvertimeDays: real,
    activeOvertimeCount: nat,
    passiveOvertimeDays: real,
    passiveOvertimeCount: nat)

  const ZeroCounts := Counts(0, 0, 0, 0, 0, 0.0, 0, 0.0, 0, 0.0, 0, 0.0, 0)

  function LeaveSum(ls: seq<Leave>): real
  {
    if ls == [] then 0.0 else LeaveSum(ls[..|ls| - 1]) + ls[|ls| - 1].days
  }

  function OvertimeSum(os: seq<Overtime>): real
  {
    if os == [] then 0.0 else OvertimeSum(os[..|os| - 1]) + os[|os| - 1].days
  }

  /** The attendance query: the user's records dated within the range. */
  predicate AttendanceIn(r: AttendanceService.Record, userId: Id, start: Date, end: Date)
    requires Valid(start) && Valid(end)
  {
    r.userId == userId && Ordinal(start) <= r.day <= Ordinal(end)
  }

  /** The leave query: the user's approved requests overlapping the range. */
  predicate LeaveIn(l: Leave, userId: Id, start: Date, end: Date)
    requires Valid(start) && Valid(end)
  {
    l.userId == userId && l.status == Approved && LeaveRepository.Overlaps(l.start, l.end, Ordinal(start), Ordinal(end))
  }

  /** The overtime query: the user's approved requests that start within the range. */
  predicate OvertimeIn(o: Overtime, userId: Id, start: Date, end: Date)
    requires Valid(start) && Valid(end)
  {
    o.userId == userId && o.status == OvertimeApproved && Ordinal(start) <= DayOf(o.start) <= Ordinal(end)
  }

  /** The counters of `get_my_statistics`, and of each user of `get_attendance_statistics`. */
  function UserCounts(userId: Id, holidays: Holidays.Rows, atts: seq<AttendanceService.Record>, leaves: seq<Leave>,
                      overtimes: seq<Overtime>, start: Date, end: Date): Counts
    requires Valid(start) && Valid(end) && Ordinal(end) < Ordinal(MaxDate)
  {
    var total := CountIn(holidays, Holidays.Range(start, end));
    var mine := Filter(atts, (r: AttendanceService.Record) => AttendanceIn(r, userId, start, end));
    var ls := Filter(leaves, (l: Leave) => LeaveIn(l, userId, start, end));
    var os := Filter(overtimes, (o: Overtime) => OvertimeIn(o, userId, start, end));
    var active := Filter(os, (o: Overtime) => o.kind == ActiveOvertime);
    var passive := Filter(os, (o: Overtime) => o.kind == PassiveOvertime);
    var leaveDays := LeaveSum(ls);
    Counts(total, |mine|,
           |Filter(mine, (r: AttendanceService.Record) => r.isLate)|,
           |Filter(mine, (r: AttendanceService.Record) => r.isEarlyLeave)|,
           AbsenceDays(total, |mine|, leaveDays), leaveDays, |ls|,
           OvertimeSum(active) + OvertimeSum(passive), |active| + |passive|,
           OvertimeSum(active), |active|, OvertimeSum(passive), |passive|)
  }

  /** `get_my_statistics`: only an explicit `enable_attendance = False` gives the all-zero answer. */
  function MyStatistics(user: User, enableAttendance: Option<bool>, holidays: Holidays.Rows,
                        atts: seq<AttendanceService.Record>, leaves: seq<Leave>, overtimes: seq<Overtime>,
                        start: Date, end: Date): Counts
    requires Valid(start) && Valid(end) && Ordinal(end) < Ordinal(MaxDate)
  {
    if enableAttendance == Some(false) then ZeroCounts
    else UserCounts(user.id, holidays, atts, leaves, overtimes, start, end)
  }

  /** Keeping the rows that satisfy both halves of a split never keeps more than the rows. */
  lemma {:induction false} SplitCount<T(!new)>(s: seq<T>, p: T -> bool, q: T -> bool)
    requires forall x :: !(p(x) && q(x))
    ensures |Filter(s, p)| + |Filter(s, q)| <= |s|
  {
    if s != [] {
      SplitCount(s[1..], p, q);
    }
  }

  /**
   * The counters of a user with attendance management on: the workdays of
   * the range, late and early days among the present days, absence by the
   * formula, and the overtime of the two kinds never more than the approved
   * requests of the range. An explicit `False` gives zeros throughout.
   */
  lemma MyStatisticsFacts(user: User, enableAttendance: Option<bool>, holidays: Holidays.Rows,
                          atts: seq<AttendanceService.Record>, leaves: seq<Leave>, overtimes: seq<Overtime>,
                          start: Date, end: Date)
    requires Valid(start) && Valid(end) && Ordinal(end) < Ordinal(MaxDate)
    ensures var c := MyStatistics(user, enableAttendance, holidays, atts, leaves, overtimes, start, end);
            (enableAttendance == Some(false) ==> c == ZeroCounts)
            && (enableAttendance != Some(false) ==>
                  c.totalDays == CountIn(holidays, Holidays.Range(start, end))
                  && c.lateDays <= c.presentDays && c.earlyLeaveDays <= c.presentDays
                  && c.absenceDays == AbsenceDays(c.totalDays, c.presentDays, c.leaveDays)
                  && c.overtimeCount == c.activeOvertimeCount + c.passiveOvertimeCount
                  && c.overtimeCount <= |Filter(overtimes, (o: Overtime) => OvertimeIn(o, user.id, start, end))|
                  && c.presentDays == |Filter(atts, (r: AttendanceService.Record) => AttendanceIn(r, user.id, start, end))|)
  {
    var os := Filter(overtimes, (o: Overtime) => OvertimeIn(o, user.id, start, end));
    SplitCount(os, (o: Overtime) => o.kind == ActiveOvertime, (o: Overtime) => o.kind == PassiveOvertime);
  }

  // ---------------------------------------------------------------------
  // Who is counted.

  const ViewerRoles := {Admin, DepartmentHead, VicePresident, GeneralManager}

  /** A user row with the columns the statistics queries filter on. */
  datatype Member = Member(user: User, username: string, enableAttendance: Option<bool>)

  /** The queried users: never the `admin` account, only `enable_attendance == True` (a NULL flag fails the SQL test), active ones when asked. */
  predicate Listed(m: Member, caller: User, departmentId: Option<Id>, activeOnly: bool)
  {
    m.username != "admin" && m.enableAttendance == Some(true) && (activeOnly ==> m.user.active)
    && (if caller.role == DepartmentHead then m.user.department == caller.department
        else departmentId.Some? ==> m.user.department == departmentId)
  }

  /**
   * The permission check and user query of `get_attendance_statistics`
   * (`activeOnly` false) and `get_daily_attendance_statistics` (true): a
   * department head is confined to their own department, other viewers
   * may narrow to one.
   */
  function Scope(members: seq<Member>, caller: User, departmentId: Option<Id>, activeOnly: bool, message: string)
    : (r: Result<seq<Member>>)
    ensures r.Err? <==> caller.role !in ViewerRoles
    ensures r.Err? ==> r.error == PermissionDenied(message)
    ensures r.Ok? ==> forall m :: m in r.value <==> m in members && Listed(m, caller, departmentId, activeOnly)
    ensures r.Ok? && caller.role == DepartmentHead ==> forall m :: m in r.value ==> m.user.department == caller.department
  {
    var r := Filter(members, (m: Member) => Listed(m, caller, departmentId, activeOnly));
    assert forall m :: m in members && Listed(m, caller, departmentId, activeOnly) ==> multiset(r)[m] > 0;
    if caller.role !in ViewerRoles then Err(PermissionDenied(message)) else Ok(r)
  }

  // ---------------------------------------------------------------------
  // Daily statuses.

  const Absent := "absent"

  /** `hour < 14 or (hour == 14 and minute < 10)`. */
  predicate BeforeTenPastTwo(t: Instant)
  {
    HourOf(t) < 14 || (HourOf(t) == 14 && MinuteOf(t) < 10)
  }

  /** The statistics' hour-and-minute test is the check-in's 14:10 deadline. */
  lemma BeforeTenPastTwoIsDeadline(t: Instant)
    ensures BeforeTenPastTwo(t) <==> TimeOf(t) < AttendanceService.AfternoonDeadline
  {
  }

  /** A status column is used when it holds a non-empty text. */
  predicate Truthy(s: Option<string>)
  {
    s.Some? && s.value != ""
  }

  /** `att.checkin_status or normal`. */
  function StatusOrNormal(s: string): string
  {
    if s != "" then s else AttendanceService.Normal
  }

  /** The morning status: a leave, else the stored status, else the check-in before 14:10, else absent. */
  function MorningStatus(p: AttendanceRules.LeavePeriod, att: Option<AttendanceService.Record>): (r: string)
    ensures r != ""
  {
    if p.morning || p.fullDay then AttendanceService.OnLeave
    else if att.Some? && Truthy(att.value.morningStatus) then att.value.morningStatus.value
    else if att.Some? && att.value.checkin.Some? then
      (if BeforeTenPastTwo(att.value.checkin.value.time) then StatusOrNormal(att.value.checkinStatus) else Absent)
    else Absent
  }

  /** The afternoon status: a leave, else the stored status, else the check-out's check-in status, else absent. */
  function AfternoonStatus(p: AttendanceRules.LeavePeriod, att: Option<AttendanceService.Record>): (r: string)
    ensures r != ""
  {
    if p.afternoon || p.fullDay then AttendanceService.OnLeave
    else if att.Some? && Truthy(att.value.afternoonStatus) then att.value.afternoonStatus.value
    else if att.Some? && att.value.checkout.Some? then StatusOrNormal(att.value.checkinStatus)
    else Absent
  }

  /**
   * The priorities of lines 664-690: a leave on a half wins over anything
   * stored, without a record and without a leave both halves are absent,
   * and a morning reported `absent` with no stored status means there was
   * no check-in before 14:10.
   */
  lemma DailyStatusPriority(p: AttendanceRules.LeavePeriod, att: Option<AttendanceService.Record>)
    ensures p.fullDay ==> MorningStatus(p, att) == AttendanceService.OnLeave && AfternoonStatus(p, att) == AttendanceService.OnLeave
    ensures !p.morning && !p.fullDay && att.Some? && Truthy(att.value.morningStatus) ==> MorningStatus(p, att) == att.value.morningStatus.value
    ensures !p.morning && !p.afternoon && !p.fullDay && att.None? ==> MorningStatus(p, att) == Absent && AfternoonStatus(p, att) == Absent
    ensures (MorningStatus(p, att) == Absent && (att.None? || !Truthy(att.value.morningStatus)) ==>
               !p.morning && (att.None? || att.value.checkin.None? || !BeforeTenPastTwo(att.value.checkin.value.time)
                              || att.value.checkinStatus == Absent))
  {
  }

  /**
   * A morning check-in stored by the attendance service with no leave is
   * reported with the status it stored.
   */
  lemma MorningCheckinReported(p: AttendanceRules.LeavePeriod, att: AttendanceService.Record, status: string, now: Instant)
    requires !p.morning && !p.fullDay && status != ""
    requires TimeOf(now) < AttendanceService.AfternoonDeadline
    requires att.morningStatus == AttendanceService.HalfStatuses(now, false, status).0
    ensures MorningStatus(p, Some(att)) == status
  {
  }

  datatype DailyItem = DailyItem(date: string, weekday: string, morning: string, afternoon: string,
                                 isLate: bool, isEarlyLeave: bool)

  datatype UserDays = UserDays(userId: Id, username: string, items: seq<DailyItem>)

  /** `attendance_dict.get((user_id, day))`: the dictionary keeps the last record of a key in scan order. */
  function LastRecord(atts: seq<AttendanceService.Record>, userId: Id, day: int): (r: Option<AttendanceService.Record>)
    ensures r.Some? ==> r.value in atts && r.value.userId == userId && r.value.day == day
    ensures r.None? <==> forall i :: 0 <= i < |atts| ==> atts[i].userId != userId || atts[i].day != day
  {
    if atts == [] then None
    else
      var last := atts[|atts| - 1];
      var init := atts[..|atts| - 1];
      assert forall i :: 0 <= i < |init| ==> init[i] == atts[i];
      if last.userId == userId && last.day == day then Some(last) else LastRecord(init, userId, day)
  }

  /** The loop that fills `attendance_dict` keyed by user and day. */
  method BuildIndex(atts: seq<AttendanceService.Record>) returns (index: map<(Id, int), AttendanceService.Record>)
    ensures forall u: Id, d :: (u, d) in index <==> LastRecord(atts, u, d).Some?
    ensures forall u: Id, d :: (u, d) in index ==> index[(u, d)] == LastRecord(atts, u, d).value
  {
    index := map[];
    var i := 0;
    while i < |atts|
      invariant 0 <= i <= |atts|
      invariant forall u: Id, d :: (u, d) in index <==> LastRecord(atts[..i], u, d).Some?
      invariant forall u: Id, d :: (u, d) in index ==> index[(u, d)] == LastRecord(atts[..i], u, d).value
    {
      assert atts[..i + 1][..i] == atts[..i];
      index := index[(atts[i].userId, atts[i].day) := atts[i]];
      i := i + 1;
    }
    assert atts[..i] == atts;
  }

  /** One row of a user's daily statistics. */
  function ItemFor(userId: Id, atts: seq<AttendanceService.Record>, leaves: seq<Leave>, d: Date): DailyItem
    requires Valid(d)
  {
    var att := LastRecord(atts, userId, Ordinal(d));
    var p := AttendanceRules.LeavePeriodFor(leaves, userId, Ordinal(d));
    DailyItem(IsoFormat(d), WeekdayName(d), MorningStatus(p, att), AfternoonStatus(p, att),
              att.Some? && att.value.isLate, att.Some? && att.value.isEarlyLeave)
  }

  /** The workdays among `ds`, in walk order. */
  function WorkdaysAmong(rows: Holidays.Rows, ds: seq<Date>): (ws: seq<Date>)
    requires AllValid(ds)
    ensures AllValid(ws)
  {
    if ds == [] then []
    else
      assert AllValid(ds[1..]) by {
        assert forall i :: 0 <= i < |ds| - 1 ==> ds[1..][i] == ds[i + 1];
      }
      (if IsWorkday(rows, ds[0]) then [ds[0]] else []) + WorkdaysAmong(rows, ds[1..])
  }

  /** Exactly the workdays of `ds` are listed. */
  lemma {:induction false} WorkdaysAmongMembers(rows: Holidays.Rows, ds: seq<Date>)
    requires AllValid(ds)
    ensures forall d :: d in WorkdaysAmong(rows, ds) <==> d in ds && Valid(d) && IsWorkday(rows, d)
  {
    if ds != [] {
      var rest := ds[1..];
      assert forall i :: 0 <= i < |rest| ==> rest[i] == ds[i + 1];
      assert ds == [ds[0]] + rest;
      WorkdaysAmongMembers(rows, rest);
    }
  }

  /** The workdays of the range, in date order. */
  function WorkdaysOf(rows: Holidays.Rows, start: Date, end: Date): (ws: seq<Date>)
    requires Valid(start) && Valid(end) && Ordinal(end) < Ordinal(MaxDate)
    ensures AllValid(ws)
  {
    WorkdaysAmong(rows, Holidays.Range(start, end))
  }

  /** A date is among the listed workdays exactly when it is a workday within the range. */
  lemma WorkdaysOfRange(rows: Holidays.Rows, start: Date, end: Date, d: Date)
    requires Valid(start) && Valid(end) && Ordinal(end) < Ordinal(MaxDate) && Valid(d)
    ensures d in WorkdaysOf(rows, start, end) <==> Ordinal(start) <= Ordinal(d) <= Ordinal(end) && IsWorkday(rows, d)
  {
    var ds := Holidays.Range(start, end);
    WorkdaysAmongMembers(rows, ds);
    if Ordinal(start) <= Ordinal(d) <= Ordinal(end) {
      var i := Ordinal(d) - Ordinal(start);
      Holidays.OrdinalInjective(ds[i], d);
      assert ds[i] in ds;
    }
    if d in ds {
      var i :| 0 <= i < |ds| && ds[i] == d;
    }
  }

  /** The row of one user for one workday, as a function of the day. */
  function ItemOf(userId: Id, atts: seq<AttendanceService.Record>, leaves: seq<Leave>): Date --> DailyItem
  {
    (d: Date) requires Valid(d) => ItemFor(userId, atts, leaves, d)
  }

  /** The rows of one user, one per workday. */
  function ItemsFor(userId: Id, atts: seq<AttendanceService.Record>, leaves: seq<Leave>, ws: seq<Date>): (r: seq<DailyItem>)
    requires AllValid(ws)
    ensures |r| == |ws| && forall j :: 0 <= j < |ws| ==> r[j] == ItemOf(userId, atts, leaves)(ws[j])
  {
    Map(ws, ItemOf(userId, atts, leaves))
  }

  /** The report of one user. */
  function ReportOf(atts: seq<AttendanceService.Record>, leaves: seq<Leave>, ws: seq<Date>): Member --> UserDays
  {
    (u: Member) requires AllValid(ws) => UserDays(u.user.id, u.username, ItemsFor(u.user.id, atts, leaves, ws))
  }

  /** One report per listed user, in query order. */
  function Reports(users: seq<Member>, atts: seq<AttendanceService.Record>, leaves: seq<Leave>, ws: seq<Date>)
    : (r: seq<UserDays>)
    requires AllValid(ws)
    ensures |r| == |users| && forall i :: 0 <= i < |users| ==> r[i] == ReportOf(atts, leaves, ws)(users[i])
    ensures forall i :: 0 <= i < |users| ==> r[i].userId == users[i].user.id
  {
    Map(users, ReportOf(atts, leaves, ws))
  }

  const DailyDenied := "无权查看每日考勤统计"

  /** `get_daily_attendance_statistics`. */
  function DailyStatistics(members: seq<Member>, caller: User, departmentId: Option<Id>, holidays: Holidays.Rows,
                           atts: seq<AttendanceService.Record>, leaves: seq<Leave>, start: Date, end: Date)
    : (r: Result<seq<UserDays>>)
    requires Valid(start) && Valid(end) && Ordinal(end) < Ordinal(MaxDate)
    ensures r.Err? <==> caller.role !in ViewerRoles
  {
    var users := Scope(members, caller, departmentId, true, DailyDenied);
    if users.Err? then Err(users.error)
    else Ok(Reports(users.value, atts, leaves, WorkdaysOf(holidays, start, end)))
  }

  /** The reports follow the users one for one: report `i` is user `i`'s, with one row per workday. */
  lemma ReportsFollowUsers(users: seq<Member>, atts: seq<AttendanceService.Record>, leaves: seq<Leave>, ws: seq<Date>)
    requires AllValid(ws)
    ensures var r := Reports(users, atts, leaves, ws);
            && (forall i :: 0 <= i < |r| ==> r[i].userId == users[i].user.id && r[i].items == ItemsFor(users[i].user.id, atts, leaves, ws))
            && (forall u :: u in users ==> exists i :: 0 <= i < |r| && r[i].userId == u.user.id)
  {
    var r := Reports(users, atts, leaves, ws);
    forall u | u in users
      ensures exists i :: 0 <= i < |r| && r[i].userId == u.user.id
    {
      var i :| 0 <= i < |users| && users[i] == u;
      assert r[i].userId == u.user.id;
    }
  }

  /** Some listed member has this id. */
  predicate ListedId(members: seq<Member>, caller: User, departmentId: Option<Id>, id: Id)
  {
    exists m :: m in members && Listed(m, caller, departmentId, true) && m.user.id == id
  }

  /** Some row is this user's. */
  predicate HasRow(r: seq<UserDays>, id: Id)
  {
    exists i :: 0 <= i < |r| && r[i].userId == id
  }

  /**
   * The daily statistics report, for every listed user and no one else,
   * one row per workday of the range, each dated by its ISO text and
   * carrying the statuses of the priority rules.
   */
  lemma DailyStatisticsShape(members: seq<Member>, caller: User, departmentId: Option<Id>, holidays: Holidays.Rows,
                             atts: seq<AttendanceService.Record>, leaves: seq<Leave>, start: Date, end: Date)
    requires Valid(start) && Valid(end) && Ordinal(end) < Ordinal(MaxDate)
    requires caller.role in ViewerRoles
    ensures DailyStatistics(members, caller, departmentId, holidays, atts, leaves, start, end).Ok?
    ensures var r := DailyStatistics(members, caller, departmentId, holidays, atts, leaves, start, end).value;
            forall i :: 0 <= i < |r| ==>
              ListedId(members, caller, departmentId, r[i].userId)
              && r[i].items == ItemsFor(r[i].userId, atts, leaves, WorkdaysOf(holidays, start, end))
    ensures var r := DailyStatistics(members, caller, departmentId, holidays, atts, leaves, start, end).value;
            forall m :: m in members && Listed(m, caller, departmentId, true) ==> HasRow(r, m.user.id)
  {
    var users := Scope(members, caller, departmentId, true, DailyDenied).value;
    var ws := WorkdaysOf(holidays, start, end);
    DailyStatisticsOfScope(members, caller, departmentId, holidays, atts, leaves, start, end);
    var r := DailyStatistics(members, caller, departmentId, holidays, atts, leaves, start, end).value;
    assert r == Reports(users, atts, leaves, ws);
    ReportsFollowUsers(users, atts, leaves, ws);
    RowsOfListed(members, caller, departmentId, users, r);
  }

  lemma DailyStatisticsOfScope(members: seq<Member>, caller: User, departmentId: Option<Id>, holidays: Holidays.Rows,
                               atts: seq<AttendanceService.Record>, leaves: seq<Leave>, start: Date, end: Date)
    requires Valid(start) && Valid(end) && Ordinal(end) < Ordinal(MaxDate)
    requires caller.role in ViewerRoles
    ensures DailyStatistics(members, caller, departmentId, holidays, atts, leaves, start, end)
            == Ok(Reports(Scope(members, caller, departmentId, true, DailyDenied).value, atts, leaves, WorkdaysOf(holidays, start, end)))
  {
  }

  /** Rows that follow exactly the listed users, one for one, name the listed users and no one else. */
  lemma RowsOfListed(members: seq<Member>, caller: User, departmentId: Option<Id>, users: seq<Member>, r: seq<UserDays>)
    requires forall m :: m in users <==> m in members && Listed(m, caller, departmentId, true)
    requires |r| == |users| && forall i :: 0 <= i < |r| ==> r[i].userId == users[i].user.id
    ensures forall i :: 0 <= i < |r| ==> ListedId(members, caller, departmentId, r[i].userId)
    ensures forall m :: m in members && Listed(m, caller, departmentId, true) ==> HasRow(r, m.user.id)
  {
    forall i | 0 <= i < |r|
      ensures ListedId(members, caller, departmentId, r[i].userId)
    {
      var m := users[i];
      assert m in users;
      assert m in members && Listed(m, caller, departmentId, true) && m.user.id == r[i].userId;
    }
    forall m | m in members && Listed(m, caller, departmentId, true)
      ensures HasRow(r, m.user.id)
    {
      var i :| 0 <= i < |users| && users[i] == m;
      assert r[i].userId == m.user.id;
    }
  }

  /** The nested loops of `get_daily_attendance_statistics`: over the listed users, then over the workdays. */
  method ComputeDailyStatistics(members: seq<Member>, caller: User, departmentId: Option<Id>, holidays: Holidays.Rows,
                                atts: seq<AttendanceService.Record>, leaves: seq<Leave>, start: Date, end: Date)
    returns (r: Result<seq<UserDays>>)
    requires Valid(start) && Valid(end) && Ordinal(end) < Ordinal(MaxDate)
    ensures r == DailyStatistics(members, caller, departmentId, holidays, atts, leaves, start, end)
  {
    var users := Scope(members, caller, departmentId, true, DailyDenied);
    if users.Err? {
      return Err(users.error);
    }
    var ws := Workdays(holidays, start, end);
    var reports := AllReports(users.value, atts, leaves, ws);
    r := Ok(reports);
  }

  /** The outer loop, over the listed users. */
  method AllReports(users: seq<Member>, atts: seq<AttendanceService.Record>, leaves: seq<Leave>, ws: seq<Date>)
    returns (result: seq<UserDays>)
    requires AllValid(ws)
    ensures result == Reports(users, atts, leaves, ws)
  {
    result := [];
    var i := 0;
    while i < |users|
      invariant 0 <= i <= |users|
      invariant result == Map(users[..i], ReportOf(atts, leaves, ws))
    {
      assert users[..i + 1] == users[..i] + [users[i]];
      MapSnoc(users[..i], users[i], ReportOf(atts, leaves, ws));
      var report := UserReport(users[i], atts, leaves, ws);
      result := result + [report];
      i := i + 1;
    }
    assert users[..i] == users;
  }

  /** One step of the walk: the first date is listed when it is a workday, then come the workdays of the rest. */
  lemma WorkdaysStep(rows: Holidays.Rows, current: Date, end: Date)
    requires Valid(current) && Valid(end) && Ordinal(current) <= Ordinal(end) < Ordinal(MaxDate)
    ensures Valid(NextDay(current)) && Ordinal(NextDay(current)) == Ordinal(current) + 1
    ensures WorkdaysAmong(rows, Holidays.Range(current, end))
            == (if IsWorkday(rows, current) then [current] else []) + WorkdaysAmong(rows, Holidays.Range(NextDay(current), end))
  {
    Holidays.RangeCons(current, end);
    var rest := Holidays.Range(NextDay(current), end);
    assert ([current] + rest)[0] == current && ([current] + rest)[1..] == rest;
  }

  /** The `while current_date <= end_date` walk collecting the workdays. */
  method Workdays(rows: Holidays.Rows, start: Date, end: Date) returns (ws: seq<Date>)
    requires Valid(start) && Valid(end) && Ordinal(end) < Ordinal(MaxDate)
    ensures ws == WorkdaysOf(rows, start, end)
  {
    var current := start;
    ws := [];
    while Ordinal(current) <= Ordinal(end)
      invariant Valid(current)
      invariant ws + WorkdaysAmong(rows, Holidays.Range(current, end)) == WorkdaysOf(rows, start, end)
      decreases Ordinal(end) - Ordinal(current)
    {
      ghost var before := ws;
      WorkdaysStep(rows, current, end);
      var workday := IsWorkday(rows, current);
      ghost var head: seq<Date> := if workday then [current] else [];
      ghost var rest := WorkdaysAmong(rows, Holidays.Range(NextDay(current), end));
      AppendAssoc(ws, head, rest);
      if workday {
        ws := ws + [current];
      }
      assert ws == before + head;
      current := NextDay(current);
    }
  }

  /** The report of one user, built by the inner loop. */
  method UserReport(u: Member, atts: seq<AttendanceService.Record>, leaves: seq<Leave>, ws: seq<Date>)
    returns (report: UserDays)
    requires AllValid(ws)
    ensures report == ReportOf(atts, leaves, ws)(u)
  {
    var items := UserItems(u.user.id, atts, leaves, ws);
    report := UserDays(u.user.id, u.username, items);
  }

  /** The inner loop over the workdays for one user. */
  method UserItems(userId: Id, atts: seq<AttendanceService.Record>, leaves: seq<Leave>, ws: seq<Date>)
    returns (items: seq<DailyItem>)
    requires AllValid(ws)
    ensures items == ItemsFor(userId, atts, leaves, ws)
  {
    items := [];
    var j := 0;
    while j < |ws|
      invariant 0 <= j <= |ws| && AllValid(ws[..j])
      invariant items == ItemsFor(userId, atts, leaves, ws[..j])
    {
      assert ws[..j + 1] == ws[..j] + [ws[j]];
      MapSnoc(ws[..j], ws[j], ItemOf(userId, atts, leaves));
      var d := ws[j];
      var att := LastRecord(atts, userId, Ordinal(d));
      var p := AttendanceRules.ComputeLeavePeriod(leaves, userId, Ordinal(d));
      items := items + [DailyItem(IsoFormat(d), WeekdayName(d), MorningStatus(p, att), AfternoonStatus(p, att),
                                  att.Some? && att.value.isLate, att.Some? && att.value.isEarlyLeave)];
      j := j + 1;
    }
    assert ws[..j] == ws;
  }
}
