/**
 * The attendance policy rules shared by backend/services/attendance_service.py
 * and backend/routers/attendance.py: the rules in force on a given weekday,
 * the strict late and early-leave comparisons, and how a user's leave
 * requests mark the halves of a day.
 *
 * Clock times are minutes after midnight; an instant's time of day is its
 * second after midnight (Calendar.TimeOf), so `HH:MM` compares as `HH*60+MM`
 * minutes, i.e. `(HH*60+MM)*60` seconds.
 */
module AttendanceRules {
  import opened Base
  import opened Calendar
  import opened Text
  import opened Models
  import opened Listing
  import LeaveRepository

  const MinutesPerDay := 1440

  /** A `"%H:%M"` policy time that `strptime` accepts. */
  type Minute = m: int | 0 <= m < MinutesPerDay

  /** The eight keys of the rules dictionary. */
  datatype Rules = Rules(workStart: Minute, workEnd: Minute,
                         checkinStart: Minute, checkinEnd: Minute,
                         checkoutStart: Minute, checkoutEnd: Minute,
                         lateThreshold: int, earlyThreshold: int)

  /** One weekday's entry of `weekly_rules`: the keys it names, each optional. */
  datatype DayRule = DayRule(workStart: Option<Minute>, workEnd: Option<Minute>,
                             checkinStart: Option<Minute>, checkinEnd: Option<Minute>,
                             checkoutStart: Option<Minute>, checkoutEnd: Option<Minute>,
                             lateThreshold: Option<int>, earlyThreshold: Option<int>)

  /**
   * The `weekly_rules` text: empty (falsy), text that `json.loads` rejects
   * or that is not an object of objects, or an object keyed by weekday.
   */
  datatype WeeklyRules = NoWeeklyRules | Unparsable | ByWeekday(days: map<string, DayRule>)

  datatype Policy = Policy(defaults: Rules, weekly: WeeklyRules)

  /** `check_date.weekday()` for an instant; day numbers are proleptic ordinals, as Calendar.Ordinal counts them. */
  function WeekdayOf(t: Instant): (w: int)
    ensures 0 <= w < 7
  {
    (DayOf(t) + 6) % 7
  }

  lemma WeekdayOfOrdinal(d: Date, s: int)
    requires Valid(d) && 0 <= s < SecondsPerDay
    ensures WeekdayOf(At(Ordinal(d), s)) == Weekday(d)
  {
    AtParts(Ordinal(d), s);
  }

  /** `str(weekday)`: the single digit naming the weekday. */
  function Key(w: int): (k: string)
    requires 0 <= w < 7
    ensures k == [DigitChar(w)]
  {
    NatToString(w)
  }

  /** `rules.update(day_rules)`. */
  function Overlay(r: Rules, o: DayRule): Rules
  {
    Rules(o.workStart.GetOr(r.workStart), o.workEnd.GetOr(r.workEnd),
          o.checkinStart.GetOr(r.checkinStart), o.checkinEnd.GetOr(r.checkinEnd),
          o.checkoutStart.GetOr(r.checkoutStart), o.checkoutEnd.GetOr(r.checkoutEnd),
          o.lateThreshold.GetOr(r.lateThreshold), o.earlyThreshold.GetOr(r.earlyThreshold))
  }

  /** `get_policy_for_date`. */
  function ForDay(p: Policy, t: Instant): Rules
  {
    match p.weekly
    case ByWeekday(days) =>
      if Key(WeekdayOf(t)) in days then Overlay(p.defaults, days[Key(WeekdayOf(t))]) else p.defaults
    case _ => p.defaults
  }

  /**
   * The policy's defaults apply unless the weekly rules parse and name the
   * instant's weekday; then every key the day's entry names is replaced and
   * every other key keeps its default.
   */
  lemma PolicyForDate(p: Policy, t: Instant)
    ensures !p.weekly.ByWeekday? ==> ForDay(p, t) == p.defaults
    ensures p.weekly.ByWeekday? && [DigitChar(WeekdayOf(t))] !in p.weekly.days ==> ForDay(p, t) == p.defaults
    ensures p.weekly.ByWeekday? && [DigitChar(WeekdayOf(t))] in p.weekly.days ==>
              var o := p.weekly.days[[DigitChar(WeekdayOf(t))]];
              var r := ForDay(p, t);
              (o.workStart.Some? ==> r.workStart == o.workStart.value)
              && (o.workStart.None? ==> r.workStart == p.defaults.workStart)
              && (o.workEnd.Some? ==> r.workEnd == o.workEnd.value)
              && (o.workEnd.None? ==> r.workEnd == p.defaults.workEnd)
              && (o.checkinStart.Some? ==> r.checkinStart == o.checkinStart.value)
              && (o.checkinStart.None? ==> r.checkinStart == p.defaults.checkinStart)
              && (o.checkinEnd.Some? ==> r.checkinEnd == o.checkinEnd.value)
              && (o.checkinEnd.None? ==> r.checkinEnd == p.defaults.checkinEnd)
              && (o.checkoutStart.Some? ==> r.checkoutStart == o.checkoutStart.value)
              && (o.checkoutStart.None? ==> r.checkoutStart == p.defaults.checkoutStart)
              && (o.checkoutEnd.Some? ==> r.checkoutEnd == o.checkoutEnd.value)
              && (o.checkoutEnd.None? ==> r.checkoutEnd == p.defaults.checkoutEnd)
              && (o.lateThreshold.Some? ==> r.lateThreshold == o.lateThreshold.value)
              && (o.lateThreshold.None? ==> r.lateThreshold == p.defaults.lateThreshold)
              && (o.earlyThreshold.Some? ==> r.earlyThreshold == o.earlyThreshold.value)
              && (o.earlyThreshold.None? ==> r.earlyThreshold == p.defaults.earlyThreshold)
  {
  }

  /** An entry that names no key changes nothing. */
  lemma EmptyDayRule(r: Rules)
    ensures Overlay(r, DayRule(None, None, None, None, None, None, None, None)) == r
  {
  }

  /** All instants of one day follow the same rules. */
  lemma RulesPerDay(p: Policy, day: int, s: int, u: int)
    requires 0 <= s < SecondsPerDay && 0 <= u < SecondsPerDay
    ensures ForDay(p, At(day, s)) == ForDay(p, At(day, u))
  {
    AtParts(day, s);
    AtParts(day, u);
  }

  /** `(combine(today, work_start) + timedelta(minutes=late_threshold)).time()`, wrapping at midnight. */
  function LateDeadline(r: Rules): (s: int)
    ensures 0 <= s < SecondsPerDay
  {
    ((r.workStart + r.lateThreshold) * 60) % SecondsPerDay
  }

  /** `(combine(today, work_end) - timedelta(minutes=early_threshold)).time()`, wrapping at midnight. */
  function EarlyDeadline(r: Rules): (s: int)
    ensures 0 <= s < SecondsPerDay
  {
    ((r.workEnd - r.earlyThreshold) * 60) % SecondsPerDay
  }

  /** `is_late`: the check-in time of day is strictly after the deadline. */
  predicate IsLate(t: Instant, p: Policy)
  {
    TimeOf(t) > LateDeadline(ForDay(p, t))
  }

  /** `is_early_leave`: the check-out time of day is strictly before the deadline. */
  predicate IsEarlyLeave(t: Instant, p: Policy)
  {
    TimeOf(t) < EarlyDeadline(ForDay(p, t))
  }

  /** When start plus threshold stays within the day, late means later than that minute, to the second. */
  lemma LateIff(t: Instant, p: Policy)
    requires 0 <= ForDay(p, t).workStart + ForDay(p, t).lateThreshold < MinutesPerDay
    ensures IsLate(t, p) <==> TimeOf(t) > (ForDay(p, t).workStart + ForDay(p, t).lateThreshold) * 60
  {
  }

  lemma EarlyIff(t: Instant, p: Policy)
    requires 0 <= ForDay(p, t).workEnd - ForDay(p, t).earlyThreshold < MinutesPerDay
    ensures IsEarlyLeave(t, p) <==> TimeOf(t) < (ForDay(p, t).workEnd - ForDay(p, t).earlyThreshold) * 60
  {
  }

  /**
   * Check-ins one minute before the start, at the start and at start plus
   * threshold are on time; one minute later is late.
   */
  lemma LateBoundaries(p: Policy, day: int)
    requires var r := ForDay(p, At(day, 0));
             1 <= r.workStart && 0 <= r.lateThreshold && r.workStart + r.lateThreshold + 1 < MinutesPerDay
    ensures var r := ForDay(p, At(day, 0));
            !IsLate(At(day, (r.workStart - 1) * 60), p)
            && !IsLate(At(day, r.workStart * 60), p)
            && !IsLate(At(day, (r.workStart + r.lateThreshold) * 60), p)
            && IsLate(At(day, (r.workStart + r.lateThreshold + 1) * 60), p)
  {
    var r := ForDay(p, At(day, 0));
    var ws: int := r.workStart;
    var thr := r.lateThreshold;
    forall m | 0 <= m < MinutesPerDay
      ensures ForDay(p, At(day, m * 60)) == r && TimeOf(At(day, m * 60)) == m * 60
    {
      RulesPerDay(p, day, m * 60, 0);
      AtParts(day, m * 60);
    }
    assert ForDay(p, At(day, (ws - 1) * 60)) == r;
    assert ForDay(p, At(day, ws * 60)) == r;
    assert ForDay(p, At(day, (ws + thr) * 60)) == r;
    assert ForDay(p, At(day, (ws + thr + 1) * 60)) == r;
  }

  /**
   * A check-out threshold-plus-one minutes before the end is early; at end
   * minus threshold, at the end and one minute after it is not.
   */
  lemma EarlyBoundaries(p: Policy, day: int)
    requires var r := ForDay(p, At(day, 0));
             0 <= r.earlyThreshold && 0 <= r.workEnd - r.earlyThreshold - 1 && r.workEnd + 1 < MinutesPerDay
    ensures var r := ForDay(p, At(day, 0));
            IsEarlyLeave(At(day, (r.workEnd - r.earlyThreshold - 1) * 60), p)
            && !IsEarlyLeave(At(day, (r.workEnd - r.earlyThreshold) * 60), p)
            && !IsEarlyLeave(At(day, r.workEnd * 60), p)
            && !IsEarlyLeave(At(day, (r.workEnd + 1) * 60), p)
  {
    var r := ForDay(p, At(day, 0));
    var we: int := r.workEnd;
    var thr := r.earlyThreshold;
    forall m | 0 <= m < MinutesPerDay
      ensures ForDay(p, At(day, m * 60)) == r && TimeOf(At(day, m * 60)) == m * 60
    {
      RulesPerDay(p, day, m * 60, 0);
      AtParts(day, m * 60);
    }
    assert ForDay(p, At(day, (we - thr - 1) * 60)) == r;
    assert ForDay(p, At(day, (we - thr) * 60)) == r;
    assert ForDay(p, At(day, we * 60)) == r;
    assert ForDay(p, At(day, (we + 1) * 60)) == r;
  }

  /** `HH:MM` with two-digit fields, as a policy time is written. */
  function ClockText(m: Minute): string
  {
    PadStart(NatToString(m / 60), 2, '0') + ":" + PadStart(NatToString(m % 60), 2, '0')
  }

  /** The window test of check-in and check-out: not before `from:00` and not after `to:00`. */
  predicate InWindow(t: Instant, from: Minute, to: Minute)
  {
    from * 60 <= TimeOf(t) <= to * 60
  }

  // ---------------------------------------------------------------------
  // The leave periods of a day (get_leave_period_for_date).

  /** The four flags of the result dictionary. */
  datatype LeavePeriod = LeavePeriod(hasLeave: bool, morning: bool, afternoon: bool, fullDay: bool)

  const NoLeave := LeavePeriod(false, false, false, false)

  /** The query of lines 112-117: the user's live requests overlapping the day. */
  predicate Relevant(l: Leave, userId: Id, day: int)
  {
    l.userId == userId && l.status in LeaveRepository.Live && LeaveRepository.Overlaps(l.start, l.end, day, day)
  }

  /** The flags one request sets. */
  datatype Mark = Mark(morning: bool, afternoon: bool, fullDay: bool)

  const Morning := Mark(true, false, false)
  const Afternoon := Mark(false, true, false)
  const FullDay := Mark(true, true, true)
  const Unmarked := Mark(false, false, false)

  predicate StartsAt(l: Leave, hour: int, minute: int)
  {
    HourOf(l.start) == hour && MinuteOf(l.start) == minute
  }

  predicate EndsAt(l: Leave, hour: int, minute: int)
  {
    HourOf(l.end) == hour && MinuteOf(l.end) == minute
  }

  /** What one request marks on `day`, by the rules of lines 130-172 taken in order. */
  function Contribution(l: Leave, day: int): (m: Mark)
    ensures m.fullDay ==> m.morning && m.afternoon
  {
    var sd := DayOf(l.start);
    var ed := DayOf(l.end);
    if StartsAt(l, 9, 0) && l.days == 0.5 && sd == day then Morning
    else if StartsAt(l, 14, 0) && sd == day then Afternoon
    else if l.days >= 1.0 && EndsAt(l, 12, 0) && ed == day then Morning
    else if sd < day < ed then FullDay
    else if sd == day && day == ed then
      (if HourOf(l.start) < 12 then (if HourOf(l.end) < 14 then Morning else FullDay) else Afternoon)
    else if sd == day then (if HourOf(l.start) < 12 then Morning else Afternoon)
    else if ed == day then (if HourOf(l.end) < 14 then Morning else Afternoon)
    else Unmarked
  }

  /**
   * The classification rules in their order of precedence: a half-day from
   * 09:00 is a morning, a start at 14:00 an afternoon, a request of a day or
   * more ending at 12:00 a morning, and a day strictly inside the span a
   * full day.
   */
  lemma ClassificationRules(l: Leave, day: int)
    ensures StartsAt(l, 9, 0) && l.days == 0.5 && DayOf(l.start) == day ==> Contribution(l, day) == Morning
    ensures StartsAt(l, 14, 0) && DayOf(l.start) == day ==> Contribution(l, day) == Afternoon
    ensures (l.days >= 1.0 && EndsAt(l, 12, 0) && DayOf(l.end) == day
             && !(StartsAt(l, 14, 0) && DayOf(l.start) == day)) ==> Contribution(l, day) == Morning
    ensures DayOf(l.start) < day < DayOf(l.end) ==> Contribution(l, day) == FullDay
  {
  }

  /** Every request that overlaps the day marks at least one half of it. */
  lemma RelevantMarksAHalf(l: Leave, userId: Id, day: int)
    requires Relevant(l, userId, day)
    ensures Contribution(l, day).morning || Contribution(l, day).afternoon
  {
    LeaveRepository.OverlapsByDay(l.start, l.end, day, day);
  }

  function Combine(a: Mark, b: Mark): Mark
  {
    Mark(a.morning || b.morning, a.afternoon || b.afternoon, a.fullDay || b.fullDay)
  }

  /** The flags set by the requests `ls`, taken one after another. */
  function Marks(ls: seq<Leave>, day: int): (m: Mark)
    ensures m.fullDay ==> m.morning && m.afternoon
    ensures m.morning <==> exists l :: l in ls && Contribution(l, day).morning
    ensures m.afternoon <==> exists l :: l in ls && Contribution(l, day).afternoon
    ensures m.fullDay <==> exists l :: l in ls && Contribution(l, day).fullDay
  {
    if ls == [] then Unmarked
    else
      var init := ls[..|ls| - 1];
      assert ls == init + [ls[|ls| - 1]];
      Combine(Marks(init, day), Contribution(ls[|ls| - 1], day))
  }

  /** The result for the requests the query returned (lines 119-177). */
  function PeriodOf(leaves: seq<Leave>, day: int): LeavePeriod
  {
    if leaves == [] then NoLeave
    else
      var m := Marks(leaves, day);
      LeavePeriod(true, m.morning, m.afternoon, m.fullDay || (m.morning && m.afternoon))
  }

  function LeavePeriodFor(rows: seq<Leave>, userId: Id, day: int): LeavePeriod
  {
    PeriodOf(Filter(rows, (l: Leave) => Relevant(l, userId, day)), day)
  }

  /**
   * Without a live overlapping request every flag is false; otherwise a
   * leave is reported, at least one half is marked, each half is marked
   * exactly when some request marks it, and full day holds exactly when
   * both halves do.
   */
  lemma LeavePeriodFacts(rows: seq<Leave>, userId: Id, day: int)
    ensures var r := LeavePeriodFor(rows, userId, day);
            (r.hasLeave <==> exists l :: l in rows && Relevant(l, userId, day))
            && (!r.hasLeave ==> r == NoLeave)
            && (r.hasLeave ==> r.morning || r.afternoon)
            && (r.fullDay <==> r.morning && r.afternoon)
            && (r.morning <==> exists l :: l in rows && Relevant(l, userId, day) && Contribution(l, day).morning)
            && (r.afternoon <==> exists l :: l in rows && Relevant(l, userId, day) && Contribution(l, day).afternoon)
  {
    var ls := Filter(rows, (l: Leave) => Relevant(l, userId, day));
    forall l | l in rows && Relevant(l, userId, day)
      ensures l in ls
    {
      assert multiset(rows)[l] > 0;
    }
    if ls != [] {
      var l := ls[0];
      assert l in ls;
      RelevantMarksAHalf(l, userId, day);
    }
  }

  /** The loop of lines 119-177 over the query's result, updating the flags request by request. */
  method ComputeLeavePeriod(rows: seq<Leave>, userId: Id, day: int) returns (r: LeavePeriod)
    ensures r == LeavePeriodFor(rows, userId, day)
  {
    var leaves := Filter(rows, (l: Leave) => Relevant(l, userId, day));
    r := NoLeave;
    if leaves == [] {
      return;
    }
    r := r.(hasLeave := true);
    var i := 0;
    while i < |leaves|
      invariant 0 <= i <= |leaves|
      invariant r.hasLeave
      invariant Mark(r.morning, r.afternoon, r.fullDay) == Marks(leaves[..i], day)
    {
      var c := Contribution(leaves[i], day);
      if c.morning {
        r := r.(morning := true);
      }
      if c.afternoon {
        r := r.(afternoon := true);
      }
      if c.fullDay {
        r := r.(fullDay := true);
      }
      assert leaves[..i + 1][..i] == leaves[..i];
      i := i + 1;
    }
    assert leaves[..i] == leaves;
    if r.morning && r.afternoon {
      r := r.(fullDay := true);
    }
  }
}
