/**
 * Check-in and check-out (backend/services/attendance_service.py and the
 * older handlers of backend/routers/attendance.py): the checks each runs,
 * in order, and the fields it writes on the day's attendance record.
 */
module AttendanceService {
  import opened Base
  import opened Calendar
  import opened Models
  import opened AttendanceRules

  /** One punch: when, where (the address if given, else the location text) and the coordinates. */
  datatype Punch = Punch(time: Instant, location: string, latitude: real, longitude: real)

  /** What the client sends with a punch. */
  datatype PunchInput = PunchInput(latitude: real, longitude: real, location: string, address: Option<string>)

  /** `address or location`: an empty address is falsy. */
  function PunchOf(now: Instant, input: PunchInput): (p: Punch)
    ensures p.time == now && p.latitude == input.latitude && p.longitude == input.longitude
    ensures p.location == (if input.address.Some? && input.address.value != "" then input.address.value else input.location)
  {
    var location := if input.address.Some? && input.address.value != "" then input.address.value else input.location;
    Punch(now, location, input.latitude, input.longitude)
  }

  /** An `attendances` row (the work-hours column is not modelled). */
  datatype Record = Record(userId: Id, day: int, checkin: Option<Punch>, checkout: Option<Punch>,
                           isLate: bool, isEarlyLeave: bool, checkinStatus: string,
                           morningStatus: Option<string>, afternoonStatus: Option<string>)

  const Normal := "normal"
  const OnLeave := "leave"

  /** 14:10, the last moment a check-in may follow a morning leave, in seconds after midnight. */
  const AfternoonDeadline := (14 * 60 + 10) * 60

  const AlreadyCheckedIn := "今天已经打过上班卡"
  const AlreadyCheckedOut := "今天已经打过下班卡"
  const FullDayLeave := "今天全天请假，无需打卡"
  const MorningLeaveTooLate := "上午请假，签到时间已过（14:10后不可签到）"

  function NoPolicy(): Error
  {
    NotFoundDescribed("打卡策略", "未找到活跃的打卡策略")
  }

  function CheckinWindowMessage(r: Rules): string
  {
    "当前时间不在上班打卡时间范围内（" + ClockText(r.checkinStart) + " - " + ClockText(r.checkinEnd) + "）"
  }

  function CheckoutWindowMessage(r: Rules): string
  {
    "当前时间不在下班打卡时间范围内（" + ClockText(r.checkoutStart) + " - " + ClockText(r.checkoutEnd) + "）"
  }

  /** A record with no punch yet. */
  function EmptyRecord(userId: Id, day: int, status: string): Record
  {
    Record(userId, day, None, None, false, false, status, None, None)
  }

  /** The service's half-day status for a check-in: the morning before 14:10, the afternoon from then on. */
  function HalfStatuses(now: Instant, morningLeave: bool, status: string): (Option<string>, Option<string>)
  {
    if TimeOf(now) < AfternoonDeadline then (Some(if morningLeave then OnLeave else status), None)
    else (None, Some(status))
  }

  /** `if morning_status:` — a `None` or empty status leaves the stored one. */
  function Keep(stored: Option<string>, given: Option<string>): Option<string>
  {
    if given.Some? && given.value != "" then given else stored
  }

  /**
   * `AttendanceService.checkin` on today's record, if any, the active
   * policy, if any, and today's leave periods.
   */
  function ServiceCheckin(existing: Option<Record>, policy: Option<Policy>, period: LeavePeriod,
                          userId: Id, now: Instant, input: PunchInput, status: string): (r: Result<Record>)
    ensures existing.Some? && existing.value.checkin.Some? ==> r == Err(ConflictError(AlreadyCheckedIn))
    ensures r.Ok? <==> (existing.None? || existing.value.checkin.None?) && policy.Some? && !period.fullDay
                       && (period.morning ==> TimeOf(now) <= AfternoonDeadline)
                       && (!period.morning ==> InWindow(now, ForDay(policy.value, now).checkinStart,
                                                        ForDay(policy.value, now).checkinEnd))
    ensures (existing.None? || existing.value.checkin.None?) && policy.None? ==> r == Err(NoPolicy())
    ensures (existing.None? || existing.value.checkin.None?) && policy.Some? && period.fullDay ==>
              r == Err(ValidationError(FullDayLeave))
    ensures ((existing.None? || existing.value.checkin.None?) && policy.Some? && !period.fullDay
             && period.morning && TimeOf(now) > AfternoonDeadline) ==> r == Err(ValidationError(MorningLeaveTooLate))
    ensures r.Ok? ==> var rec := r.value;
                      rec.checkin == Some(PunchOf(now, input)) && rec.checkinStatus == status
                      && rec.isLate == (!period.morning && IsLate(now, policy.value))
                      && (existing.Some? ==> (rec.userId == existing.value.userId && rec.day == existing.value.day
                                              && rec.checkout == existing.value.checkout
                                              && rec.isEarlyLeave == existing.value.isEarlyLeave))
                      && (existing.None? ==> (rec.userId == userId && rec.day == DayOf(now)
                                              && rec.checkout.None? && !rec.isEarlyLeave))
  {
    if existing.Some? && existing.value.checkin.Some? then Err(ConflictError(AlreadyCheckedIn))
    else if policy.None? then Err(NoPolicy())
    else if period.fullDay then Err(ValidationError(FullDayLeave))
    else if period.morning && TimeOf(now) > AfternoonDeadline then Err(ValidationError(MorningLeaveTooLate))
    else
      var rules := ForDay(policy.value, now);
      if !period.morning && !InWindow(now, rules.checkinStart, rules.checkinEnd) then
        Err(ValidationError(CheckinWindowMessage(rules)))
      else
        var late := !period.morning && IsLate(now, policy.value);
        var (morning, afternoon) := HalfStatuses(now, period.morning, status);
        if existing.Some? then
          Ok(existing.value.(checkin := Some(PunchOf(now, input)), isLate := late, checkinStatus := status,
                             morningStatus := Keep(existing.value.morningStatus, morning),
                             afternoonStatus := Keep(existing.value.afternoonStatus, afternoon)))
        else
          Ok(EmptyRecord(userId, DayOf(now), status).(checkin := Some(PunchOf(now, input)), isLate := late,
                                                       morningStatus := morning, afternoonStatus := afternoon))
  }

  /**
   * A check-in before 14:10 sets the morning status, to `leave` after a
   * morning leave and otherwise to the given status, and leaves the
   * afternoon alone; from 14:10 it sets the afternoon status and leaves the
   * morning alone. An existing record keeps its stored status when the
   * given one is empty (`if morning_status:`), while a new record stores
   * the given status as it is, empty included. A morning leave also means
   * never late.
   */
  lemma CheckinHalfDayStatus(existing: Option<Record>, policy: Option<Policy>, period: LeavePeriod,
                             userId: Id, now: Instant, input: PunchInput, status: string)
    requires ServiceCheckin(existing, policy, period, userId, now, input, status).Ok?
    ensures var rec := ServiceCheckin(existing, policy, period, userId, now, input, status).value;
            var before := if existing.Some? then existing.value else EmptyRecord(userId, DayOf(now), status);
            (TimeOf(now) < AfternoonDeadline && period.morning ==> rec.morningStatus == Some(OnLeave))
            && (TimeOf(now) < AfternoonDeadline && !period.morning && (status != "" || existing.None?)
                ==> rec.morningStatus == Some(status))
            && (TimeOf(now) < AfternoonDeadline && !period.morning && status == "" && existing.Some?
                ==> rec.morningStatus == before.morningStatus)
            && (TimeOf(now) < AfternoonDeadline ==> rec.afternoonStatus == before.afternoonStatus)
            && (TimeOf(now) >= AfternoonDeadline ==> rec.morningStatus == before.morningStatus)
            && (TimeOf(now) >= AfternoonDeadline && (status != "" || existing.None?) ==> rec.afternoonStatus == Some(status))
            && (TimeOf(now) >= AfternoonDeadline && status == "" && existing.Some?
                ==> rec.afternoonStatus == before.afternoonStatus)
            && (existing.None? ==> (rec.afternoonStatus.Some? <==> TimeOf(now) >= AfternoonDeadline))
            && (period.morning ==> !rec.isLate)
  {
  }

  /** Without a morning leave a check-in outside the day's window fails with the window message. */
  lemma CheckinWindowChecked(existing: Option<Record>, policy: Policy, period: LeavePeriod,
                             userId: Id, now: Instant, input: PunchInput, status: string)
    requires existing.None? || existing.value.checkin.None?
    requires !period.fullDay && !period.morning
    requires !InWindow(now, ForDay(policy, now).checkinStart, ForDay(policy, now).checkinEnd)
    ensures ServiceCheckin(existing, Some(policy), period, userId, now, input, status)
            == Err(ValidationError(CheckinWindowMessage(ForDay(policy, now))))
  {
  }

  /** `AttendanceService.checkout`. */
  function ServiceCheckout(existing: Option<Record>, policy: Option<Policy>, period: LeavePeriod,
                           now: Instant, input: PunchInput): (r: Result<Record>)
    ensures existing.None? ==> r == Err(NotFoundDescribed("考勤记录", "今天还没有上班打卡，无法下班打卡"))
    ensures existing.Some? && existing.value.checkout.Some? ==> r == Err(ConflictError(AlreadyCheckedOut))
    ensures existing.Some? && existing.value.checkout.None? && policy.None? ==> r == Err(NoPolicy())
    ensures existing.Some? && existing.value.checkout.None? && policy.Some? && period.fullDay ==>
              r == Err(ValidationError(FullDayLeave))
    ensures r.Ok? <==> existing.Some? && existing.value.checkout.None? && policy.Some? && !period.fullDay
                       && InWindow(now, ForDay(policy.value, now).checkoutStart, ForDay(policy.value, now).checkoutEnd)
    ensures r.Ok? ==> r.value == existing.value.(checkout := Some(PunchOf(now, input)),
                                               isEarlyLeave := !period.afternoon && IsEarlyLeave(now, policy.value),
                                               afternoonStatus := if period.afternoon then existing.value.afternoonStatus
                                                                  else Some(Normal))
  {
    if existing.None? then Err(NotFoundDescribed("考勤记录", "今天还没有上班打卡，无法下班打卡"))
    else if existing.value.checkout.Some? then Err(ConflictError(AlreadyCheckedOut))
    else if policy.None? then Err(NoPolicy())
    else if period.fullDay then Err(ValidationError(FullDayLeave))
    else
      var rules := ForDay(policy.value, now);
      if !InWindow(now, rules.checkoutStart, rules.checkoutEnd) then Err(ValidationError(CheckoutWindowMessage(rules)))
      else
        var early := !period.afternoon && IsEarlyLeave(now, policy.value);
        var rec := existing.value.(checkout := Some(PunchOf(now, input)), isEarlyLeave := early);
        Ok(if period.afternoon then rec else rec.(afternoonStatus := Some(Normal)))
  }

  /** After an afternoon leave a check-out is never early and leaves the afternoon status as it was. */
  lemma CheckoutAfternoonLeave(existing: Option<Record>, policy: Option<Policy>, period: LeavePeriod,
                               now: Instant, input: PunchInput)
    requires period.afternoon && ServiceCheckout(existing, policy, period, now, input).Ok?
    ensures var rec := ServiceCheckout(existing, policy, period, now, input).value;
            !rec.isEarlyLeave && rec.afternoonStatus == existing.value.afternoonStatus
            && rec.checkin == existing.value.checkin && rec.morningStatus == existing.value.morningStatus
  {
  }

  /**
   * The router's `checkin`: a second check-in fails, the window is checked
   * only under an active policy, and without one nobody is late. The status
   * columns keep their stored or default values.
   */
  function RouterCheckin(existing: Option<Record>, policy: Option<Policy>, userId: Id, now: Instant,
                         input: PunchInput): (r: Result<Record>)
    ensures existing.Some? && existing.value.checkin.Some? ==> r == Err(BadRequest(AlreadyCheckedIn))
    ensures r.Ok? <==> (existing.None? || existing.value.checkin.None?)
                       && (policy.Some? ==> InWindow(now, ForDay(policy.value, now).checkinStart,
                                                     ForDay(policy.value, now).checkinEnd))
    ensures r.Ok? ==> r.value.checkin == Some(PunchOf(now, input))
                      && r.value.isLate == (policy.Some? && IsLate(now, policy.value))
    ensures r.Ok? && existing.Some? ==> r.value == existing.value.(checkin := r.value.checkin, isLate := r.value.isLate)
    ensures r.Ok? && existing.None? ==> r.value == EmptyRecord(userId, DayOf(now), Normal).(checkin := r.value.checkin,
                                                                                          isLate := r.value.isLate)
  {
    if existing.Some? && existing.value.checkin.Some? then Err(BadRequest(AlreadyCheckedIn))
    else if policy.Some? && !InWindow(now, ForDay(policy.value, now).checkinStart, ForDay(policy.value, now).checkinEnd) then
      Err(BadRequest(CheckinWindowMessage(ForDay(policy.value, now))))
    else
      var late := policy.Some? && IsLate(now, policy.value);
      var base := if existing.Some? then existing.value else EmptyRecord(userId, DayOf(now), Normal);
      Ok(base.(checkin := Some(PunchOf(now, input)), isLate := late))
  }

  /** The router's `checkout`. */
  function RouterCheckout(existing: Option<Record>, policy: Option<Policy>, now: Instant, input: PunchInput): (r: Result<Record>)
    ensures existing.None? ==> r == Err(BadRequest("请先打上班卡"))
    ensures existing.Some? && existing.value.checkout.Some? ==> r == Err(BadRequest(AlreadyCheckedOut))
    ensures r.Ok? <==> existing.Some? && existing.value.checkout.None?
                       && (policy.Some? ==> InWindow(now, ForDay(policy.value, now).checkoutStart,
                                                     ForDay(policy.value, now).checkoutEnd))
    ensures r.Ok? ==> r.value == existing.value.(checkout := Some(PunchOf(now, input)),
                                               isEarlyLeave := policy.Some? && IsEarlyLeave(now, policy.value))
  {
    if existing.None? then Err(BadRequest("请先打上班卡"))
    else if existing.value.checkout.Some? then Err(BadRequest(AlreadyCheckedOut))
    else if policy.Some? && !InWindow(now, ForDay(policy.value, now).checkoutStart, ForDay(policy.value, now).checkoutEnd) then
      Err(BadRequest(CheckoutWindowMessage(ForDay(policy.value, now))))
    else
      Ok(existing.value.(checkout := Some(PunchOf(now, input)),
                         isEarlyLeave := policy.Some? && IsEarlyLeave(now, policy.value)))
  }

  /** The id of `get_by_user_and_date(user, day)`: the lowest-id record of that user dated that day. */
  function TodayRecord(rows: map<Id, Record>, userId: Id, day: int): (r: Option<Id>)
    ensures r.Some? ==> r.value in rows && rows[r.value].userId == userId && rows[r.value].day == day
    ensures r.Some? ==> forall k :: k in rows && rows[k].userId == userId && rows[k].day == day ==> r.value <= k
    ensures r.None? <==> forall k :: k in rows ==> rows[k].userId != userId || rows[k].day != day
  {
    var ids := set k | k in rows && rows[k].userId == userId && rows[k].day == day;
    assert forall k :: k in rows && rows[k].userId == userId && rows[k].day == day ==> k in ids;
    FirstId(ids)
  }

  function Lookup(rows: map<Id, Record>, id: Option<Id>): Option<Record>
  {
    if id.Some? && id.value in rows then Some(rows[id.value]) else None
  }

  /** A check-in or check-out that succeeded replaces today's record, or adds one under the next id. */
  function Stored(rows: map<Id, Record>, id: Option<Id>, nextId: Id, r: Result<Record>): map<Id, Record>
  {
    if r.Err? then rows
    else if id.Some? then rows[id.value := r.value]
    else rows[nextId := r.value]
  }

  /** The `attendances` table, updated in place by the four handlers. */
  class AttendanceTable {
    var rows: map<Id, Record>
    var nextId: Id

    ghost predicate Valid()
      reads this
    {
      forall k :: k in rows ==> k < nextId
    }

    constructor()
      ensures Valid() && rows == map[] && nextId == 1
    {
      rows := map[];
      nextId := 1;
    }

    /** Writes a successful result and advances the id when a record was created. */
    method Store(id: Option<Id>, r: Result<Record>)
      requires Valid() && (id.Some? ==> id.value in rows)
      modifies this
      ensures Valid()
      ensures rows == Stored(old(rows), id, old(nextId), r)
      ensures nextId == if r.Ok? && id.None? then old(nextId) + 1 else old(nextId)
    {
      if r.Ok? {
        if id.Some? {
          rows := rows[id.value := r.value];
        } else {
          rows := rows[nextId := r.value];
          nextId := nextId + 1;
        }
      }
    }

    /** `AttendanceService.checkin`, with the leave table's rows and the active policy passed in. */
    method Checkin(userId: Id, now: Instant, policy: Option<Policy>, leaves: seq<Leave>, input: PunchInput, status: string)
      returns (r: Result<Record>)
      requires Valid()
      modifies this
      ensures Valid()
      ensures var id := TodayRecord(old(rows), userId, DayOf(now));
              r == ServiceCheckin(Lookup(old(rows), id), policy, LeavePeriodFor(leaves, userId, DayOf(now)),
                                  userId, now, input, status)
              && rows == Stored(old(rows), id, old(nextId), r)
    {
      var id := TodayRecord(rows, userId, DayOf(now));
      var period := ComputeLeavePeriod(leaves, userId, DayOf(now));
      r := ServiceCheckin(Lookup(rows, id), policy, period, userId, now, input, status);
      Store(id, r);
    }

    /** `AttendanceService.checkout`. */
    method Checkout(userId: Id, now: Instant, policy: Option<Policy>, leaves: seq<Leave>, input: PunchInput)
      returns (r: Result<Record>)
      requires Valid()
      modifies this
      ensures Valid() && nextId == old(nextId)
      ensures var id := TodayRecord(old(rows), userId, DayOf(now));
              r == ServiceCheckout(Lookup(old(rows), id), policy, LeavePeriodFor(leaves, userId, DayOf(now)), now, input)
              && rows == Stored(old(rows), id, old(nextId), r)
    {
      var id := TodayRecord(rows, userId, DayOf(now));
      var period := ComputeLeavePeriod(leaves, userId, DayOf(now));
      r := ServiceCheckout(Lookup(rows, id), policy, period, now, input);
      Store(id, r);
    }

    /** The router's `checkin`. */
    method CheckinByRouter(userId: Id, now: Instant, policy: Option<Policy>, input: PunchInput) returns (r: Result<Record>)
      requires Valid()
      modifies this
      ensures Valid()
      ensures var id := TodayRecord(old(rows), userId, DayOf(now));
              r == RouterCheckin(Lookup(old(rows), id), policy, userId, now, input)
              && rows == Stored(old(rows), id, old(nextId), r)
    {
      var id := TodayRecord(rows, userId, DayOf(now));
      r := RouterCheckin(Lookup(rows, id), policy, userId, now, input);
      Store(id, r);
    }

    /** The router's `checkout`. */
    method CheckoutByRouter(userId: Id, now: Instant, policy: Option<Policy>, input: PunchInput) returns (r: Result<Record>)
      requires Valid()
      modifies this
      ensures Valid() && nextId == old(nextId)
      ensures var id := TodayRecord(old(rows), userId, DayOf(now));
              r == RouterCheckout(Lookup(old(rows), id), policy, now, input)
              && rows == Stored(old(rows), id, old(nextId), r)
    {
      var id := TodayRecord(rows, userId, DayOf(now));
      r := RouterCheckout(Lookup(rows, id), policy, now, input);
      Store(id, r);
    }
  }

  /**
   * Punching in twice on one day: once a check-in has been stored, the next
   * one that day finds it and fails, in the service and in the router alike.
   */
  lemma SecondCheckinFails(rows: map<Id, Record>, nextId: Id, userId: Id, now: Instant, later: Instant,
                           policy: Option<Policy>, period: LeavePeriod, input: PunchInput, status: string)
    requires forall k :: k in rows ==> k < nextId
    requires DayOf(later) == DayOf(now)
    requires ServiceCheckin(Lookup(rows, TodayRecord(rows, userId, DayOf(now))), policy, period, userId, now, input, status).Ok?
    ensures var after := Stored(rows, TodayRecord(rows, userId, DayOf(now)), nextId,
                                ServiceCheckin(Lookup(rows, TodayRecord(rows, userId, DayOf(now))), policy, period,
                                               userId, now, input, status));
            var again := Lookup(after, TodayRecord(after, userId, DayOf(later)));
            again.Some? && again.value.checkin.Some?
            && ServiceCheckin(again, policy, period, userId, later, input, status) == Err(ConflictError(AlreadyCheckedIn))
            && RouterCheckin(again, policy, userId, later, input) == Err(BadRequest(AlreadyCheckedIn))
  {
    var id := TodayRecord(rows, userId, DayOf(now));
    var r := ServiceCheckin(Lookup(rows, id), policy, period, userId, now, input, status);
    var after := Stored(rows, id, nextId, r);
    var again := TodayRecord(after, userId, DayOf(later));
    var k := if id.Some? then id.value else nextId;
    assert k in after && after[k].userId == userId && after[k].day == DayOf(now);
    assert again.Some?;
    if id.Some? {
      assert after.Keys == rows.Keys;
      assert forall j :: j in after && j != k ==> after[j] == rows[j];
      assert again.value == k;
    } else {
      assert forall j :: j in rows ==> rows[j].userId != userId || rows[j].day != DayOf(now);
      assert again.value == k;
    }
  }
}
