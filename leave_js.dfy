/**
 * The leave helpers of frontend/mobile/src/leave.js. Leave is counted in
 * half-days from four fixed time slots: 09:00 and 14:00 as starts, 12:00
 * and 17:30 as ends. A leave over several days walks the calendar from the
 * start day, at most 100 days, crediting the start day by its start slot,
 * the end day by its end slot and every other day in full.
 */
module LeaveClient {
  import opened Base
  import opened Text
  import opened Calendar
  import opened Listing
  import JsDates
  import Calculation

  const MorningStart := "09:00"
  const AfternoonStart := "14:00"
  const MorningEnd := "12:00"
  const AfternoonEnd := "17:30"

  /** The loop guard `loopCount < maxLoops`. */
  const MaxLoops := 100

  /** `date.includes('T') ? date.split('T')[0] : date`. */
  function NormalizeDate(s: string): (r: string)
    ensures r == Before(s, 'T') && 'T' !in r
    ensures 'T' !in s ==> r == s
  {
    if 'T' in s then Split(s, 'T')[0] else s
  }

  /** A date read with a time appended reads as the date alone. */
  lemma NormalizeCutsTime(date: string, rest: string)
    requires 'T' !in date
    ensures NormalizeDate(date + "T" + rest) == date
  {
    var s := date + "T" + rest;
    assert s == date + ['T'] + rest;
    FindCharAfter(date, 'T', rest);
    assert s[..|date|] == date;
  }

  /** `calculateSingleDayLeave`, in half-days: a morning or an afternoon is one, the whole day two, anything else none. */
  function SingleDayLeave(startTime: string, endTime: string): (h: int)
    ensures h == 1 <==> (startTime == MorningStart && endTime == MorningEnd) || (startTime == AfternoonStart && endTime == AfternoonEnd)
    ensures h == 2 <==> startTime == MorningStart && endTime == AfternoonEnd
    ensures h == 0 || h == 1 || h == 2
  {
    if startTime == MorningStart && endTime == MorningEnd then 1
    else if startTime == AfternoonStart && endTime == AfternoonEnd then 1
    else if startTime == MorningStart && endTime == AfternoonEnd then 2
    else 0
  }

  /** What the start day contributes: a full day from 09:00, half a day from 14:00, nothing otherwise. */
  function StartDayHalves(startTime: string): int
  {
    if startTime == MorningStart then 2 else if startTime == AfternoonStart then 1 else 0
  }

  /** What the end day contributes: half a day to 12:00, a full day to 17:30, nothing otherwise. */
  function EndDayHalves(endTime: string): int
  {
    if endTime == MorningEnd then 1 else if endTime == AfternoonEnd then 2 else 0
  }

  /** One iteration's credit for the day `day`, compared with the start day first. */
  function DayHalves(day: int, startDay: int, endDay: int, startTime: string, endTime: string): int
  {
    if day == startDay then StartDayHalves(startTime)
    else if day == endDay then EndDayHalves(endTime)
    else 2
  }

  /** The credits of the first `k` days from `startDay`. */
  function WalkTotal(startDay: int, endDay: int, startTime: string, endTime: string, k: nat): int
  {
    if k == 0 then 0
    else WalkTotal(startDay, endDay, startTime, endTime, k - 1) + DayHalves(startDay + k - 1, startDay, endDay, startTime, endTime)
  }

  /** The days the loop visits: from the start day through the end day, at most `MaxLoops` of them. */
  function VisitedDays(startDay: int, endDay: int): (n: nat)
    ensures n <= MaxLoops
  {
    if endDay < startDay then 0 else Listing.Min(endDay - startDay + 1, MaxLoops)
  }

  /**
   * `calculateLeaveDays`, in half-days. The dates are compared after
   * normalising; different dates are parsed (with `T00:00:00` appended,
   * a local midnight) and walked. An invalid date fails the loop guard at
   * once, giving 0.
   */
  function LeaveDays(startDate: string, startTime: string, endDate: string, endTime: string): int
  {
    var a, b := NormalizeDate(startDate), NormalizeDate(endDate);
    if a == b then SingleDayLeave(startTime, endTime)
    else
      match (JsDates.ParseIsoDate(a), JsDates.ParseIsoDate(b))
      case (Some(s), Some(e)) => WalkTotal(Ordinal(s), Ordinal(e), startTime, endTime, VisitedDays(Ordinal(s), Ordinal(e)))
      case _ => 0
  }

  /** `calculateLeaveDays`: the calendar walk, one day per iteration. */
  method CalculateLeaveDays(startDate: string, startTime: string, endDate: string, endTime: string) returns (halves: int)
    ensures halves == LeaveDays(startDate, startTime, endDate, endTime)
  {
    var normalizedStart := NormalizeDate(startDate);
    var normalizedEnd := NormalizeDate(endDate);
    if normalizedStart == normalizedEnd {
      return SingleDayLeave(startTime, endTime);
    }
    var startObj := JsDates.ParseIsoDate(normalizedStart);
    var endObj := JsDates.ParseIsoDate(normalizedEnd);
    if startObj.None? || endObj.None? {
      return 0;
    }
    halves := Walk(Ordinal(startObj.value), Ordinal(endObj.value), startTime, endTime);
  }

  /** The `while (currentDate <= endDateObj && loopCount < maxLoops)` loop of `calculateLeaveDays`, on day numbers. */
  method Walk(startDay: int, endDay: int, startTime: string, endTime: string) returns (halves: int)
    ensures halves == WalkTotal(startDay, endDay, startTime, endTime, VisitedDays(startDay, endDay))
  {
    var totalDays := 0;
    var currentDay := startDay;
    var loopCount := 0;
    while currentDay <= endDay && loopCount < MaxLoops
      invariant 0 <= loopCount <= VisitedDays(startDay, endDay)
      invariant currentDay == startDay + loopCount
      invariant totalDays == WalkTotal(startDay, endDay, startTime, endTime, loopCount)
      decreases MaxLoops - loopCount
    {
      if currentDay == startDay {
        if startTime == MorningStart {
          totalDays := totalDays + 2;
        } else if startTime == AfternoonStart {
          totalDays := totalDays + 1;
        }
      } else if currentDay == endDay {
        if endTime == MorningEnd {
          totalDays := totalDays + 1;
        } else if endTime == AfternoonEnd {
          totalDays := totalDays + 2;
        }
      } else {
        totalDays := totalDays + 2;
      }
      currentDay := currentDay + 1;
      loopCount := loopCount + 1;
    }
    halves := totalDays;
  }

  /** Before the end day is reached, the walk has the start day's credit and a full day for each day since. */
  lemma {:induction false} WalkBeforeEnd(startDay: int, endDay: int, startTime: string, endTime: string, k: nat)
    requires 1 <= k && startDay + k - 1 < endDay
    ensures WalkTotal(startDay, endDay, startTime, endTime, k) == StartDayHalves(startTime) + 2 * (k - 1)
  {
    if k > 1 {
      WalkBeforeEnd(startDay, endDay, startTime, endTime, k - 1);
    }
  }

  /**
   * The walk in closed form: nothing when the end precedes the start; the
   * start day's and end day's credits and a full day for each day between
   * when the span is within 100 days; otherwise the start day's credit and
   * 99 full days, the end day never being reached.
   */
  lemma WalkClosedForm(startDay: int, endDay: int, startTime: string, endTime: string)
    requires startDay != endDay
    ensures var total := WalkTotal(startDay, endDay, startTime, endTime, VisitedDays(startDay, endDay));
            && (endDay < startDay ==> total == 0)
            && (startDay < endDay < startDay + MaxLoops ==>
                  total == StartDayHalves(startTime) + 2 * (endDay - startDay - 1) + EndDayHalves(endTime))
            && (endDay >= startDay + MaxLoops ==> total == StartDayHalves(startTime) + 2 * (MaxLoops - 1))
  {
    if startDay < endDay {
      var n := VisitedDays(startDay, endDay);
      if endDay < startDay + MaxLoops {
        WalkBeforeEnd(startDay, endDay, startTime, endTime, n - 1);
      } else {
        WalkBeforeEnd(startDay, endDay, startTime, endTime, n);
      }
    }
  }

  /** Only the date part of each date string matters: anything from a `T` on is ignored. */
  lemma OnlyDatePartsMatter(startDate: string, startTime: string, endDate: string, endTime: string)
    ensures LeaveDays(startDate, startTime, endDate, endTime)
              == LeaveDays(NormalizeDate(startDate), startTime, NormalizeDate(endDate), endTime)
  {
  }

  /** `Math.round(totalDays * 10) / 10` leaves a count of half-days as it is, so the result is a multiple of 0.5. */
  lemma RoundingKeepsHalves(halves: int)
    ensures var days := halves as real / 2.0;
            ((days * 10.0 + 0.5).Floor as real) / 10.0 == days
  {
    var days := halves as real / 2.0;
    assert days * 10.0 == (5 * halves) as real;
    assert (days * 10.0 + 0.5).Floor == 5 * halves;
  }

  /** Two consecutive full days reckon as two days here and as three and a half in calculation.js's cross-day rule. */
  lemma CalculatorsDisagreeAcrossDays(startDay: int)
    ensures WalkTotal(startDay, startDay + 1, MorningStart, AfternoonEnd, VisitedDays(startDay, startDay + 1)) == 4
    ensures Calculation.CrossDayHalves(1, Calculation.DayMinutesOf(9 * 60, 1439), Calculation.DayMinutesOf(0, 17 * 60 + 30)) == 7
  {
    assert VisitedDays(startDay, startDay + 1) == 2;
    assert WalkTotal(startDay, startDay + 1, MorningStart, AfternoonEnd, 1) == 2;
    Calculation.CrossDayExample();
  }

  /** `getStatusClass`. */
  function StatusClass(status: string): (c: string)
    ensures c == "success" <==> status == "approved"
    ensures c == "danger" <==> status == "rejected" || status == "cancelled"
    ensures c == "warning" <==> status != "approved" && Contains(status, "approved")
    ensures c == "pending" <==> !Contains(status, "approved") && status != "rejected" && status != "cancelled"
  {
    if status == "approved" then
      assert OccursAt(status, "approved", 0);
      "success"
    else if status == "rejected" || status == "cancelled" then
      NoApprovedInside(status);
      "danger"
    else if Contains(status, "approved") then "warning"
    else "pending"
  }

  lemma NoApprovedInside(status: string)
    requires status == "rejected" || status == "cancelled"
    ensures !Contains(status, "approved")
  {
    forall i | 0 <= i && i + 8 <= |status|
      ensures !OccursAt(status, "approved", i)
    {
      assert status[i..i + 8][1] == status[i + 1] != 'p';
    }
  }

  /** The two intermediate approval states show as in progress. */
  lemma IntermediateStatesWarn()
    ensures StatusClass("dept_approved") == "warning" && StatusClass("vp_approved") == "warning"
    ensures StatusClass("pending") == "pending"
  {
    assert OccursAt("dept_approved", "approved", 5);
    assert OccursAt("vp_approved", "approved", 3);
    assert !Contains("pending", "approved") by {
      assert |"pending"| < |"approved"|;
    }
  }

  /** `canCancelLeave`: a request still in the approval chain can be withdrawn. */
  predicate CanCancelLeave(status: string)
  {
    status == "pending" || status == "dept_approved" || status == "vp_approved"
  }

  /** A leave item as the list holds it: only its status is read. */
  datatype LeaveItem = LeaveItem(status: string)

  function Unfinished(): LeaveItem -> bool
  {
    (l: LeaveItem) => CanCancelLeave(l.status)
  }

  /** `countPendingLeaves`: a value that is not an array counts 0. */
  function CountPendingLeaves(leaves: Option<seq<LeaveItem>>): (n: nat)
    ensures leaves.None? ==> n == 0
    ensures leaves.Some? ==> n == Count(leaves.value, Unfinished()) && n <= |leaves.value|
  {
    if leaves.None? then 0 else Count(leaves.value, Unfinished())
  }

  /** The count is zero exactly when no item can still be withdrawn, and the list length exactly when all can. */
  lemma CountPendingExtremes(leaves: seq<LeaveItem>)
    ensures CountPendingLeaves(Some(leaves)) == 0 <==> forall i :: 0 <= i < |leaves| ==> !CanCancelLeave(leaves[i].status)
    ensures CountPendingLeaves(Some(leaves)) == |leaves| <==> forall i :: 0 <= i < |leaves| ==> CanCancelLeave(leaves[i].status)
  {
    CountAllOrNone(leaves, Unfinished());
  }

  /** Counting two lists together adds their counts. */
  lemma CountPendingAppend(a: seq<LeaveItem>, b: seq<LeaveItem>)
    ensures CountPendingLeaves(Some(a + b)) == CountPendingLeaves(Some(a)) + CountPendingLeaves(Some(b))
  {
    CountAppend(a, b, Unfinished());
  }
}
