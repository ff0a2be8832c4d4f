/**
 * The client-side day calculators of frontend/mobile/js/utils/calculation.js.
 * Clock strings become minute counts; a day of leave or overtime is 8 hours,
 * or 480 minutes, and every result is a whole number of half-days. `NaN`,
 * which a malformed time or date yields, is `None`.
 *
 * The JavaScript computes in floating point, hours as minutes / 60. The
 * model computes in exact integers on minutes: a threshold test such as
 * `hours <= 4` is `minutes <= 240`, `Math.ceil(hours / 8)` is a ceiling
 * division by 480, and `Math.round(x * 2) / 2`, which is `floor(2x + 0.5)`
 * half-days, is a floor division by 240 after adding 120.
 */
module Calculation {
  import opened Base
  import opened Text
  import opened Calendar
  import JsDates

  const MinutesPerDay := 24 * 60
  const LunchStart := 12 * 60
  const LunchEnd := 14 * 60
  /** One day of leave or overtime, in minutes. */
  const WorkDay := 8 * 60
  const HalfDay := 4 * 60

  function Max(a: int, b: int): int { if a >= b then a else b }
  function Min(a: int, b: int): int { if a <= b then a else b }

  /**
   * `Number(field)` read on ASCII digit fields only (the empty field is 0).
   * Every other field is taken as `NaN`, although `Number` also reads
   * signs, surrounding blanks, fractions and hexadecimal.
   */
  function FieldNumber(s: string): Option<nat>
  {
    if AllDigits(s) then Some(DigitsValue(s)) else None
  }

  /** `timeToMinutes`: `const [hour, min] = time.split(':').map(Number); hour * 60 + min`. */
  function TimeToMinutes(time: string): Option<int>
  {
    var parts := Split(time, ':');
    if |parts| < 2 then None
    else
      var hour, min := FieldNumber(parts[0]), FieldNumber(parts[1]);
      if hour.Some? && min.Some? then Some(hour.value * 60 + min.value) else None
  }

  /** `H:M` with decimal fields reads as `H * 60 + M`. */
  lemma TimeToMinutesOfClock(h: nat, m: nat)
    ensures TimeToMinutes(NatToString(h) + ":" + NatToString(m)).Some?
    ensures TimeToMinutes(NatToString(h) + ":" + NatToString(m)).value == h * 60 + m
  {
    NatToStringValue(h);
    NatToStringValue(m);
    ClockMinutes(NatToString(h), NatToString(m));
  }

  /** Two fields of digits around one `:` read as hours and minutes. */
  lemma ClockMinutes(hs: string, ms: string)
    requires AllDigits(hs) && AllDigits(ms)
    ensures TimeToMinutes(hs + ":" + ms).Some?
    ensures TimeToMinutes(hs + ":" + ms).value == DigitsValue(hs) * 60 + DigitsValue(ms)
  {
    assert ':' !in hs && ':' !in ms;
    assert hs + ":" + ms == hs + [':'] + ms;
    SplitAfter(hs, ':', ms);
    var tail := Split(ms, ':');
    assert tail == [ms] by { assert |tail| == 1 && Join(tail, ':') == tail[0]; }
    var parts := Split(hs + ":" + ms, ':');
    assert parts == [hs, ms];
    MinutesOfFields(hs + ":" + ms, hs, ms, DigitsValue(hs), DigitsValue(ms));
  }

  lemma MinutesOfFields(time: string, hs: string, ms: string, h: nat, m: nat)
    requires Split(time, ':') == [hs, ms] && FieldNumber(hs) == Some(h) && FieldNumber(ms) == Some(m)
    ensures TimeToMinutes(time).Some? && TimeToMinutes(time).value == h * 60 + m
  {
  }

  /** The minutes two intervals share: `max(0, min(e1, e2) - max(s1, s2))`. */
  function OverlapMinutes(s1: int, e1: int, s2: int, e2: int): (m: int)
    ensures m >= 0
  {
    var overlapStart := Max(s1, s2);
    var overlapEnd := Min(e1, e2);
    if overlapStart < overlapEnd then overlapEnd - overlapStart else 0
  }

  /** The minutes `t` in `[from, to)` with `s2 <= t < e2`, counted one by one. */
  function CommonMinutes(from: int, to: int, s2: int, e2: int): nat
    decreases to - from
  {
    if to <= from then 0
    else CommonMinutes(from, to - 1, s2, e2) + (if s2 <= to - 1 < e2 then 1 else 0)
  }

  /** The overlap is the number of minutes both intervals contain. */
  lemma {:induction false} OverlapCountsCommonMinutes(s1: int, e1: int, s2: int, e2: int)
    ensures OverlapMinutes(s1, e1, s2, e2) == CommonMinutes(s1, e1, s2, e2)
    decreases e1 - s1
  {
    if s1 < e1 {
      OverlapCountsCommonMinutes(s1, e1 - 1, s2, e2);
    }
  }

  /** The overlap does not depend on which interval comes first, and never exceeds either interval. */
  lemma OverlapSymmetric(s1: int, e1: int, s2: int, e2: int)
    ensures OverlapMinutes(s1, e1, s2, e2) == OverlapMinutes(s2, e2, s1, e1)
    ensures OverlapMinutes(s1, e1, s2, e2) <= Max(0, e1 - s1) && OverlapMinutes(s1, e1, s2, e2) <= Max(0, e2 - s2)
  {
  }

  /** `calculateTimeOverlap`: a `NaN` bound makes the test `overlapStart < overlapEnd` false, giving 0. */
  function TimeOverlap(start1: string, end1: string, start2: string, end2: string): (m: int)
    ensures m >= 0
    ensures TimeToMinutes(start1).None? || TimeToMinutes(end1).None? || TimeToMinutes(start2).None? || TimeToMinutes(end2).None? ==> m == 0
  {
    match (TimeToMinutes(start1), TimeToMinutes(end1), TimeToMinutes(start2), TimeToMinutes(end2))
    case (Some(s1), Some(e1), Some(s2), Some(e2)) => OverlapMinutes(s1, e1, s2, e2)
    case _ => 0
  }

  lemma TimeOverlapSymmetric(start1: string, end1: string, start2: string, end2: string)
    ensures TimeOverlap(start1, end1, start2, end2) == TimeOverlap(start2, end2, start1, end1)
  {
  }

  /**
   * `calculateDayHours` in minutes: the span from start to end, a day
   * longer when the end is earlier, less its overlap with 12:00-14:00
   * computed on the unwrapped clock readings.
   */
  function DayMinutesOf(sm: int, em: int): (m: int)
    ensures 0 <= sm < MinutesPerDay && 0 <= em < MinutesPerDay ==> 0 <= m < MinutesPerDay
  {
    var total := if em - sm < 0 then em - sm + MinutesPerDay else em - sm;
    if sm < LunchEnd && em > LunchStart then total - Max(0, Min(em, LunchEnd) - Max(sm, LunchStart))
    else total
  }

  /** Within one day, the working minutes are the span less the part of it spent at lunch. */
  lemma DayMinutesIsSpanLessLunch(sm: int, em: int)
    requires sm <= em
    ensures DayMinutesOf(sm, em) == (em - sm) - OverlapMinutes(sm, em, LunchStart, LunchEnd)
  {
  }

  /** A span that runs past midnight is a day longer and loses no lunch, even when it covers 12:00-14:00. */
  lemma WrappedSpanKeepsLunch(sm: int, em: int)
    requires em < sm
    ensures DayMinutesOf(sm, em) == em - sm + MinutesPerDay
  {
  }

  function DayMinutes(startTime: string, endTime: string): Option<int>
  {
    match (TimeToMinutes(startTime), TimeToMinutes(endTime))
    case (Some(sm), Some(em)) => Some(DayMinutesOf(sm, em))
    case _ => None
  }

  /** `calculateSingleDayLeave` on working minutes: half a day up to 4 hours, a day up to 8, then whole days rounded up. */
  function LeaveHalves(m: int): (h: int)
  {
    if m <= HalfDay then 1
    else if m <= WorkDay then 2
    else 2 * ((m + WorkDay - 1) / WorkDay)
  }

  /** The leave charged is the least that covers the time away: half a day, a day, or the fewest whole days. */
  lemma LeaveHalvesCovers(m: int)
    ensures LeaveHalves(m) == 1 <==> m <= HalfDay
    ensures LeaveHalves(m) == 2 <==> HalfDay < m <= WorkDay
    ensures m > WorkDay ==> var days := LeaveHalves(m) / 2;
              LeaveHalves(m) == 2 * days && days >= 2 && (days - 1) * WorkDay < m <= days * WorkDay
  {
  }

  /** `calculateSingleDayLeave(startTime, endTime)`, in half-days; `NaN` hours fail both tests and `Math.ceil(NaN)` is `NaN`. */
  function SingleDayLeave(startTime: string, endTime: string): (r: Option<int>)
    ensures r.None? <==> DayMinutes(startTime, endTime).None?
    ensures r.Some? ==> r.value == LeaveHalves(DayMinutes(startTime, endTime).value) && r.value >= 1
  {
    match DayMinutes(startTime, endTime)
    case None => None
    case Some(m) =>
      LeaveHalvesCovers(m);
      Some(LeaveHalves(m))
  }

  /** `calculateOvertimeHours` in minutes: the span, a day longer past midnight, with no lunch taken off. */
  function OvertimeMinutesOf(sm: int, em: int): (m: int)
  {
    if em - sm < 0 then em - sm + MinutesPerDay else em - sm
  }

  /** For clock readings within a day, overtime is the forward distance from start to end round the clock. */
  lemma OvertimeIsForwardDistance(sm: int, em: int)
    requires 0 <= sm < MinutesPerDay && 0 <= em < MinutesPerDay
    ensures OvertimeMinutesOf(sm, em) == (em - sm) % MinutesPerDay
    ensures 0 <= OvertimeMinutesOf(sm, em) < MinutesPerDay
  {
  }

  function OvertimeMinutes(startTime: string, endTime: string): Option<int>
  {
    match (TimeToMinutes(startTime), TimeToMinutes(endTime))
    case (Some(sm), Some(em)) => Some(OvertimeMinutesOf(sm, em))
    case _ => None
  }

  /** `Math.round((hours / 8) * 2) / 2` in half-days: the nearest half-day, a tie going up. */
  function NearestHalves(m: int): int
  {
    (m + HalfDay / 2) / HalfDay
  }

  /** The rounding picks the half-day count nearest to the minutes, the upper one on a tie. */
  lemma NearestHalvesIsNearest(m: int)
    ensures var h := NearestHalves(m); h * HalfDay - HalfDay / 2 <= m < h * HalfDay + HalfDay / 2
  {
  }

  /** `calculateSingleDayOvertime`, in half-days. */
  function SingleDayOvertime(startTime: string, endTime: string): (r: Option<int>)
    ensures r.None? <==> OvertimeMinutes(startTime, endTime).None?
  {
    match OvertimeMinutes(startTime, endTime)
    case None => None
    case Some(m) => Some(NearestHalves(m))
  }

  /**
   * The cross-day total `daysDiff - 1 + startHours / 8 + endHours / 8`,
   * rounded to the nearest half-day: the whole days in between, plus the
   * start and end days' minutes.
   */
  function CrossDayHalves(daysDiff: int, startMinutes: int, endMinutes: int): int
  {
    2 * (daysDiff - 1) + NearestHalves(startMinutes + endMinutes)
  }

  /** The cross-day result is the half-day count nearest to the exact total. */
  lemma CrossDayIsNearest(daysDiff: int, x: int, y: int)
    ensures var h := CrossDayHalves(daysDiff, x, y);
            var exact := (daysDiff - 1) * WorkDay + x + y;
            h * HalfDay - HalfDay / 2 <= exact < h * HalfDay + HalfDay / 2
  {
    NearestHalvesIsNearest(x + y);
  }

  /** `new Date(\`${date}T${time}\`) < ...`: false whenever either side is `NaN`. */
  predicate EndsBeforeStart(startDate: string, startTime: string, endDate: string, endTime: string)
  {
    var start := JsDates.ParseDateTime(startDate + "T" + startTime);
    var end := JsDates.ParseDateTime(endDate + "T" + endTime);
    start.Some? && end.Some? && end.value < start.value
  }

  /** `Math.floor((new Date(endDate) - new Date(startDate)) / 86400000)`: whole days between two date-only strings. */
  function DaysDiff(startDate: string, endDate: string): Option<int>
  {
    match (JsDates.ParseIsoDate(startDate), JsDates.ParseIsoDate(endDate))
    case (Some(a), Some(b)) => Some(Ordinal(b) - Ordinal(a))
    case _ => None
  }

  /** `calculateLeaveDaysByRules`, in half-days. */
  function LeaveDaysByRules(startDate: string, startTime: string, endDate: string, endTime: string): (r: Option<int>)
    ensures EndsBeforeStart(startDate, startTime, endDate, endTime) ==> r == Some(0)
    ensures !EndsBeforeStart(startDate, startTime, endDate, endTime) && startDate == endDate ==> r == SingleDayLeave(startTime, endTime)
  {
    if EndsBeforeStart(startDate, startTime, endDate, endTime) then Some(0)
    else if startDate == endDate then SingleDayLeave(startTime, endTime)
    else
      match (DaysDiff(startDate, endDate), DayMinutes(startTime, "23:59"), DayMinutes("00:00", endTime))
      case (Some(d), Some(x), Some(y)) => Some(CrossDayHalves(d, x, y))
      case _ => None
  }

  /** `calculateOvertimeDaysByRules`, in half-days. */
  function OvertimeDaysByRules(startDate: string, startTime: string, endDate: string, endTime: string): (r: Option<int>)
    ensures EndsBeforeStart(startDate, startTime, endDate, endTime) ==> r == Some(0)
    ensures !EndsBeforeStart(startDate, startTime, endDate, endTime) && startDate == endDate ==> r == SingleDayOvertime(startTime, endTime)
  {
    if EndsBeforeStart(startDate, startTime, endDate, endTime) then Some(0)
    else if startDate == endDate then SingleDayOvertime(startTime, endTime)
    else
      match (DaysDiff(startDate, endDate), OvertimeMinutes(startTime, "23:59"), OvertimeMinutes("00:00", endTime))
      case (Some(d), Some(x), Some(y)) => Some(CrossDayHalves(d, x, y))
      case _ => None
  }

  /** The fixed end the cross-day rules measure the start day to. */
  lemma EndOfDay()
    ensures TimeToMinutes("23:59") == Some(1439)
  {
    TwoDigitsValue("23");
    TwoDigitsValue("59");
    ClockMinutes("23", "59");
    assert "23:59" == "23" + ":" + "59";
  }

  /** The fixed start the cross-day rules measure the end day from. */
  lemma StartOfDay()
    ensures TimeToMinutes("00:00") == Some(0)
  {
    TwoDigitsValue("00");
    ClockMinutes("00", "00");
    assert "00:00" == "00" + ":" + "00";
  }

  /**
   * Across days, leave counts the start day up to 23:59 and the end day
   * from 00:00, each less lunch, plus the whole days between.
   */
  lemma LeaveCrossDay(startDate: string, startTime: string, endDate: string, endTime: string, sm: int, em: int)
    requires startDate != endDate && !EndsBeforeStart(startDate, startTime, endDate, endTime)
    requires DaysDiff(startDate, endDate).Some?
    requires TimeToMinutes(startTime) == Some(sm) && TimeToMinutes(endTime) == Some(em)
    ensures LeaveDaysByRules(startDate, startTime, endDate, endTime)
              == Some(CrossDayHalves(DaysDiff(startDate, endDate).value, DayMinutesOf(sm, 1439), DayMinutesOf(0, em)))
  {
    EndOfDay();
    StartOfDay();
  }

  /** Across days, overtime counts the start day up to 23:59 and the end day from 00:00, with no lunch taken off. */
  lemma OvertimeCrossDay(startDate: string, startTime: string, endDate: string, endTime: string, sm: int, em: int)
    requires startDate != endDate && !EndsBeforeStart(startDate, startTime, endDate, endTime)
    requires DaysDiff(startDate, endDate).Some?
    requires TimeToMinutes(startTime) == Some(sm) && TimeToMinutes(endTime) == Some(em)
    ensures OvertimeDaysByRules(startDate, startTime, endDate, endTime)
              == Some(CrossDayHalves(DaysDiff(startDate, endDate).value, OvertimeMinutesOf(sm, 1439), OvertimeMinutesOf(0, em)))
  {
    EndOfDay();
    StartOfDay();
  }

  /**
   * From 09:00 on one day to 17:30 on the next, the working minutes are
   * 779 (the start day runs to 23:59) and 930 (the end day runs from
   * 00:00), which with the one day `daysDiff - 1` takes off come to three
   * and a half days.
   */
  lemma CrossDayExample()
    ensures DayMinutesOf(9 * 60, 1439) == 779 && DayMinutesOf(0, 17 * 60 + 30) == 930
    ensures CrossDayHalves(1, 779, 930) == 7
  {
  }
}
