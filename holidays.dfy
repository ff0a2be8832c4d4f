/**
 * The workday calendar's configuration (backend/services/holiday_service.py):
 * dates marked as a statutory holiday, a company holiday or a make-up
 * workday, over the default of Monday to Friday.
 *
 * Dates are stored as the text the administrator sent. `strptime` also
 * accepts unpadded fields (`2024-1-5`), and lookups compare that text, so
 * the table is keyed by string and a date is looked up by its ISO text.
 * Python orders dates field by field, which is the order of their
 * ordinals (Calendar.OrdinalOrder); the model compares ordinals.
 */
module Holidays {
  import opened Base
  import opened Calendar
  import opened Models

  datatype Holiday = Holiday(date: string, name: string, kind: string, description: Option<string>)

  const StatutoryHoliday := "holiday"
  const MakeUpWorkday := "workday"
  const CompanyHoliday := "company_holiday"
  const Kinds := {StatutoryHoliday, MakeUpWorkday, CompanyHoliday}

  const FormatMessage := "日期格式错误，应为 YYYY-MM-DD"
  const KindMessage := "类型必须是 holiday（休息日-法定节假日）、workday（调休工作日）或 company_holiday（休息日-公司节假日）"
  const AdminOnly := "只有管理员可以配置节假日"

  type Rows = map<Id, Holiday>

  /** The `unique=True` constraint on `holidays.date`. */
  predicate UniqueDates(rows: Rows)
  {
    forall a, b :: a in rows && b in rows && rows[a].date == rows[b].date ==> a == b
  }

  /** `get_by_date`: the row stored under exactly this text, if any. */
  function ByDate(rows: Rows, s: string): (r: Option<Id>)
    ensures r.Some? ==> r.value in rows && rows[r.value].date == s
    ensures r.None? <==> forall k :: k in rows ==> rows[k].date != s
  {
    var ids := set k | k in rows && rows[k].date == s;
    assert forall k :: k in rows && rows[k].date == s ==> k in ids;
    FirstId(ids)
  }

  /** The configuration stored for a date's text. */
  function ConfigOn(rows: Rows, s: string): Option<Holiday>
  {
    var id := ByDate(rows, s);
    if id.Some? then Some(rows[id.value]) else None
  }

  /** The permission check: only a caller that is given and is not an admin is refused. */
  predicate Refused(caller: Option<User>)
  {
    caller.Some? && caller.value.role != Admin
  }

  datatype WorkdayAnswer = WorkdayAnswer(date: string, isWorkday: bool, reason: string, holidayName: Option<string>)

  /** `check_workday`. */
  function CheckWorkday(rows: Rows, s: string): (r: Result<WorkdayAnswer>)
    ensures r.Err? <==> ParseYmd(s).None?
    ensures r.Err? ==> r.error == ValidationError(FormatMessage)
    ensures r.Ok? ==> r.value.date == s
  {
    match ParseYmd(s)
    case None => Err(ValidationError(FormatMessage))
    case Some(d) =>
      var h := ConfigOn(rows, s);
      if h.Some? && h.value.kind == StatutoryHoliday then Ok(WorkdayAnswer(s, false, "法定节假日", Some(h.value.name)))
      else if h.Some? && h.value.kind == CompanyHoliday then Ok(WorkdayAnswer(s, false, "公司节假日", Some(h.value.name)))
      else if h.Some? && h.value.kind == MakeUpWorkday then Ok(WorkdayAnswer(s, true, "调休工作日", Some(h.value.name)))
      else if Weekday(d) >= 5 then Ok(WorkdayAnswer(s, false, "周末", None))
      else Ok(WorkdayAnswer(s, true, "正常工作日", None))
  }

  /**
   * A configured holiday of either kind is a day off and a configured
   * make-up workday a workday, each reporting its name; a date without a
   * recognised configuration is a workday exactly from Monday to Friday,
   * a weekend reporting "周末".
   */
  lemma WorkdayRules(rows: Rows, s: string)
    requires ParseYmd(s).Some?
    ensures var a := CheckWorkday(rows, s).value;
            var h := ConfigOn(rows, s);
            (h.Some? && h.value.kind in {StatutoryHoliday, CompanyHoliday} ==> !a.isWorkday && a.holidayName == Some(h.value.name))
            && (h.Some? && h.value.kind == MakeUpWorkday ==> a.isWorkday && a.holidayName == Some(h.value.name))
            && ((h.None? || h.value.kind !in Kinds) ==>
                  ((a.isWorkday <==> Weekday(ParseYmd(s).value) < 5) && a.holidayName.None?
                   && (a.reason == "周末" <==> !a.isWorkday)))
  {
  }

  /** `create_holiday`, checks in order. */
  function CreateHoliday(rows: Rows, s: string, name: string, kind: string, description: Option<string>,
                         caller: Option<User>): (r: Result<Holiday>)
    ensures Refused(caller) ==> r == Err(PermissionDenied(AdminOnly))
    ensures r.Ok? <==> !Refused(caller) && ParseYmd(s).Some? && ByDate(rows, s).None? && kind in Kinds
    ensures !Refused(caller) && ParseYmd(s).Some? && ByDate(rows, s).Some? ==>
              r == Err(ConflictError("日期 " + s + " 已存在配置"))
    ensures r.Ok? ==> r.value == Holiday(s, name, kind, description)
  {
    if Refused(caller) then Err(PermissionDenied(AdminOnly))
    else if ParseYmd(s).None? then Err(ValidationError(FormatMessage))
    else if ByDate(rows, s).Some? then Err(ConflictError("日期 " + s + " 已存在配置"))
    else if kind !in Kinds then Err(ValidationError(KindMessage))
    else Ok(Holiday(s, name, kind, description))
  }

  /** Adding a row whose date is not yet stored keeps the dates unique. */
  lemma AddKeepsUnique(rows: Rows, id: Id, h: Holiday)
    requires UniqueDates(rows) && id !in rows && ByDate(rows, h.date).None?
    ensures UniqueDates(rows[id := h])
  {
  }

  // ---------------------------------------------------------------------
  // Batch creation.

  /** The dates `start, start + 1 day, ..., end` that the `while current_date <= end_date` walk visits. */
  function Range(start: Date, end: Date): (r: seq<Date>)
    requires Valid(start) && Valid(end) && Ordinal(end) < Ordinal(MaxDate)
    ensures |r| == if Ordinal(start) > Ordinal(end) then 0 else Ordinal(end) - Ordinal(start) + 1
    ensures forall i :: 0 <= i < |r| ==> Valid(r[i]) && Ordinal(r[i]) == Ordinal(start) + i
    ensures |r| > 0 ==> r[0] == start
    decreases Ordinal(end) - Ordinal(start)
  {
    if Ordinal(start) > Ordinal(end) then []
    else
      NextDayOrdinal(start);
      [start] + Range(NextDay(start), end)
  }

  /** None of the dates `ds` is configured under its ISO text. */
  predicate AllFree(rows: Rows, ds: seq<Date>)
    requires forall i :: 0 <= i < |ds| ==> Valid(ds[i])
  {
    forall i :: 0 <= i < |ds| ==> ByDate(rows, IsoFormat(ds[i])).None?
  }

  /** "Already configured": the stored texts among the ISO dates of `ds`, in walk order. */
  function Taken(rows: Rows, ds: seq<Date>): (r: seq<string>)
    requires forall i :: 0 <= i < |ds| ==> Valid(ds[i])
    ensures |r| <= |ds|
    ensures forall j :: 0 <= j < |r| ==> ByDate(rows, r[j]).Some?
  {
    if ds == [] then []
    else
      var s := IsoFormat(ds[0]);
      assert forall i :: 0 <= i < |ds| - 1 ==> ds[1..][i] == ds[i + 1];
      var rest := Taken(rows, ds[1..]);
      if ByDate(rows, s).Some? then [s] + rest else rest
  }

  /** The new rows for the dates of `ds` that are not configured, in walk order; all of them when none is. */
  function ToCreate(rows: Rows, ds: seq<Date>, name: string, kind: string, description: Option<string>): (r: seq<Holiday>)
    requires forall i :: 0 <= i < |ds| ==> Valid(ds[i])
    ensures |r| <= |ds|
  {
    if ds == [] then []
    else
      var s := IsoFormat(ds[0]);
      assert forall i :: 0 <= i < |ds| - 1 ==> ds[1..][i] == ds[i + 1];
      var rest := ToCreate(rows, ds[1..], name, kind, description);
      if ByDate(rows, s).Some? then rest else [Holiday(s, name, kind, description)] + rest
  }

  /** Nothing is taken exactly when every date is free. */
  lemma {:induction false} TakenEmpty(rows: Rows, ds: seq<Date>)
    requires forall i :: 0 <= i < |ds| ==> Valid(ds[i])
    ensures Taken(rows, ds) == [] <==> AllFree(rows, ds)
  {
    if ds != [] {
      assert forall i :: 0 <= i < |ds| - 1 ==> ds[1..][i] == ds[i + 1];
      TakenEmpty(rows, ds[1..]);
      assert AllFree(rows, ds) <==> ByDate(rows, IsoFormat(ds[0])).None? && AllFree(rows, ds[1..]);
    }
  }

  /** When every date is free, one new row per date, in order. */
  lemma {:induction false} ToCreateAllFree(rows: Rows, ds: seq<Date>, name: string, kind: string, description: Option<string>)
    requires forall i :: 0 <= i < |ds| ==> Valid(ds[i])
    requires AllFree(rows, ds)
    ensures var r := ToCreate(rows, ds, name, kind, description);
            |r| == |ds| && forall i :: 0 <= i < |ds| ==> r[i] == Holiday(IsoFormat(ds[i]), name, kind, description)
  {
    if ds != [] {
      var tail := ds[1..];
      assert forall i :: 0 <= i < |tail| ==> tail[i] == ds[i + 1];
      assert AllFree(rows, tail) by {
        assert forall i :: 0 <= i < |tail| ==> ByDate(rows, IsoFormat(tail[i])).None?;
      }
      ToCreateAllFree(rows, tail, name, kind, description);
      assert ByDate(rows, IsoFormat(ds[0])).None?;
      var rest := ToCreate(rows, tail, name, kind, description);
      var r := [Holiday(IsoFormat(ds[0]), name, kind, description)] + rest;
      assert ToCreate(rows, ds, name, kind, description) == r;
      forall i | 0 <= i < |ds|
        ensures r[i] == Holiday(IsoFormat(ds[i]), name, kind, description)
      {
        if i > 0 {
          assert r[i] == rest[i - 1] && tail[i - 1] == ds[i];
        }
      }
    }
  }

  /** `', '.join(dates)`. */
  function JoinComma(parts: seq<string>): string
  {
    if parts == [] then "" else if |parts| == 1 then parts[0] else parts[0] + ", " + JoinComma(parts[1..])
  }

  function ConflictList(taken: seq<string>): string
  {
    "以下日期已存在配置: " + JoinComma(if |taken| > 5 then taken[..5] else taken) + (if |taken| > 5 then "..." else "")
  }

  /** `create_holidays_batch`, up to the rows it would create. */
  function BatchResult(rows: Rows, startText: string, endText: string, name: string, kind: string,
                       description: Option<string>, caller: Option<User>): (r: Result<seq<Holiday>>)
    requires ParseYmd(endText).Some? ==> Ordinal(ParseYmd(endText).value) < Ordinal(MaxDate)
  {
    if Refused(caller) then Err(PermissionDenied(AdminOnly))
    else if ParseYmd(startText).None? || ParseYmd(endText).None? then Err(ValidationError(FormatMessage))
    else
      var start := ParseYmd(startText).value;
      var end := ParseYmd(endText).value;
      if Ordinal(start) > Ordinal(end) then Err(ValidationError("开始日期不能晚于结束日期"))
      else if kind !in Kinds then Err(ValidationError(KindMessage))
      else
        var ds := Range(start, end);
        var taken := Taken(rows, ds);
        if taken != [] then Err(ConflictError(ConflictList(taken)))
        else Ok(ToCreate(rows, ds, name, kind, description))
  }

  /** The rows after storing `hs` under consecutive ids from `nextId`. */
  function AddAll(rows: Rows, nextId: Id, hs: seq<Holiday>): (r: Rows)
    ensures forall k :: k in r <==> k in rows || nextId <= k < nextId + |hs|
    ensures forall k :: nextId <= k < nextId + |hs| ==> r[k] == hs[k - nextId]
    ensures forall k :: k in rows && !(nextId <= k < nextId + |hs|) ==> r[k] == rows[k]
  {
    if hs == [] then rows
    else AddAll(rows, nextId, hs[..|hs| - 1])[(nextId + |hs| - 1) as Id := hs[|hs| - 1]]
  }

  /** A non-empty range is its first date followed by the range from the next day. */
  lemma RangeCons(current: Date, end: Date)
    requires Valid(current) && Valid(end) && Ordinal(current) <= Ordinal(end) < Ordinal(MaxDate)
    ensures Valid(NextDay(current)) && Ordinal(NextDay(current)) == Ordinal(current) + 1
    ensures Range(current, end) == [current] + Range(NextDay(current), end)
  {
    NextDayOrdinal(current);
  }

  /** One step of the walk: the first date of the range goes to one side, the rest of the range follows. */
  lemma WalkStep(rows: Rows, current: Date, end: Date, name: string, kind: string, description: Option<string>)
    requires Valid(current) && Valid(end) && Ordinal(current) <= Ordinal(end) < Ordinal(MaxDate)
    ensures Valid(NextDay(current)) && Ordinal(NextDay(current)) == Ordinal(current) + 1
    ensures var s := IsoFormat(current);
            var rest := Range(NextDay(current), end);
            && Taken(rows, Range(current, end)) == (if ByDate(rows, s).Some? then [s] else []) + Taken(rows, rest)
            && ToCreate(rows, Range(current, end), name, kind, description)
               == (if ByDate(rows, s).Some? then [] else [Holiday(s, name, kind, description)]) + ToCreate(rows, rest, name, kind, description)
  {
    RangeCons(current, end);
    var rest := Range(NextDay(current), end);
    assert ([current] + rest)[0] == current && ([current] + rest)[1..] == rest;
  }

  /** Two dates with the same ISO text are the same date. */
  lemma IsoInjective(a: Date, b: Date)
    requires Valid(a) && Valid(b) && IsoFormat(a) == IsoFormat(b)
    ensures a == b
  {
    ParseIsoFormat(a);
    ParseIsoFormat(b);
  }

  lemma OrdinalInjective(a: Date, b: Date)
    requires Valid(a) && Valid(b) && Ordinal(a) == Ordinal(b)
    ensures a == b
  {
    OrdinalOrder(a, b);
    OrdinalOrder(b, a);
  }

  /**
   * Batch creation is all or nothing: it fails with a conflict exactly
   * when some date of the range is already configured, and otherwise
   * yields one row per day of the inclusive range, in date order.
   */
  lemma BatchAllOrNothing(rows: Rows, startText: string, endText: string, name: string, kind: string,
                          description: Option<string>, caller: Option<User>)
    requires !Refused(caller) && kind in Kinds
    requires ParseYmd(startText).Some? && ParseYmd(endText).Some?
    requires Ordinal(ParseYmd(startText).value) <= Ordinal(ParseYmd(endText).value) < Ordinal(MaxDate)
    ensures var start := ParseYmd(startText).value;
            var end := ParseYmd(endText).value;
            var r := BatchResult(rows, startText, endText, name, kind, description, caller);
            (r.Err? <==> !AllFree(rows, Range(start, end)))
            && (r.Err? ==> r.error.ConflictError?)
            && (r.Ok? ==> |r.value| == Ordinal(end) - Ordinal(start) + 1
                          && forall i :: 0 <= i < |r.value| ==> r.value[i] == Holiday(IsoFormat(Range(start, end)[i]), name, kind, description))
  {
    var start := ParseYmd(startText).value;
    var end := ParseYmd(endText).value;
    var ds := Range(start, end);
    TakenEmpty(rows, ds);
    if AllFree(rows, ds) {
      ToCreateAllFree(rows, ds, name, kind, description);
    }
  }

  /** Storing a successful batch keeps every date stored once. */
  lemma BatchKeepsUnique(rows: Rows, nextId: Id, ds: seq<Date>, name: string, kind: string, description: Option<string>)
    requires UniqueDates(rows) && forall k :: k in rows ==> k < nextId
    requires forall i :: 0 <= i < |ds| ==> Valid(ds[i])
    requires forall i, j :: 0 <= i < j < |ds| ==> Ordinal(ds[i]) < Ordinal(ds[j])
    requires AllFree(rows, ds)
    ensures UniqueDates(AddAll(rows, nextId, ToCreate(rows, ds, name, kind, description)))
  {
    var hs := ToCreate(rows, ds, name, kind, description);
    ToCreateAllFree(rows, ds, name, kind, description);
    forall i, j | 0 <= i < j < |hs|
      ensures hs[i].date != hs[j].date
    {
      if hs[i].date == hs[j].date {
        IsoInjective(ds[i], ds[j]);
      }
    }
    AddAllUnique(rows, nextId, hs);
  }

  lemma {:induction false} AddAllUnique(rows: Rows, nextId: Id, hs: seq<Holiday>)
    requires UniqueDates(rows) && forall k :: k in rows ==> k < nextId
    requires forall i :: 0 <= i < |hs| ==> ByDate(rows, hs[i].date).None?
    requires forall i, j :: 0 <= i < j < |hs| ==> hs[i].date != hs[j].date
    ensures UniqueDates(AddAll(rows, nextId, hs))
    decreases |hs|
  {
    if hs != [] {
      var init := hs[..|hs| - 1];
      var last := hs[|hs| - 1];
      AddAllUnique(rows, nextId, init);
      var before := AddAll(rows, nextId, init);
      forall k | k in before
        ensures before[k].date != last.date
      {
        if nextId <= k < nextId + |init| {
          assert before[k] == hs[k - nextId];
        } else {
          assert before[k] == rows[k];
        }
      }
    }
  }

  // ---------------------------------------------------------------------
  // Updates.

  /** `update_holiday`: the given fields are replaced, absent ones kept. */
  function UpdateHoliday(rows: Rows, id: Id, name: Option<string>, kind: Option<string>, description: Option<string>,
                         caller: Option<User>): (r: Result<Holiday>)
    ensures Refused(caller) ==> r == Err(PermissionDenied(AdminOnly))
    ensures !Refused(caller) && id !in rows ==> r == Err(NotFoundError("节假日配置", Some(id)))
    ensures r.Ok? <==> !Refused(caller) && id in rows && (kind.Some? ==> kind.value in Kinds)
    ensures r.Ok? ==> r.value.date == rows[id].date
                      && r.value.name == name.GetOr(rows[id].name)
                      && r.value.kind == kind.GetOr(rows[id].kind)
                      && r.value.description == (if description.Some? then description else rows[id].description)
  {
    if Refused(caller) then Err(PermissionDenied(AdminOnly))
    else if id !in rows then Err(NotFoundError("节假日配置", Some(id)))
    else if kind.Some? && kind.value !in Kinds then Err(ValidationError(KindMessage))
    else
      var h := rows[id];
      Ok(h.(name := name.GetOr(h.name), kind := kind.GetOr(h.kind),
            description := if description.Some? then description else h.description))
  }

  /** An update with no field given changes nothing. */
  lemma EmptyUpdateIsIdentity(rows: Rows, id: Id, caller: Option<User>)
    requires !Refused(caller) && id in rows
    ensures UpdateHoliday(rows, id, None, None, None, caller) == Ok(rows[id])
  {
  }

  /** The `holidays` table. */
  class HolidayTable {
    var rows: Rows
    var nextId: Id

    ghost predicate Valid()
      reads this
    {
      UniqueDates(rows) && forall k :: k in rows ==> k < nextId
    }

    constructor()
      ensures Valid() && rows == map[] && nextId == 1
    {
      rows := map[];
      nextId := 1;
    }

    method Create(s: string, name: string, kind: string, description: Option<string>, caller: Option<User>)
      returns (r: Result<Holiday>)
      requires Valid()
      modifies this
      ensures Valid()
      ensures r == CreateHoliday(old(rows), s, name, kind, description, caller)
      ensures r.Ok? ==> rows == old(rows)[old(nextId) := r.value] && nextId == old(nextId) + 1
      ensures r.Err? ==> rows == old(rows) && nextId == old(nextId)
    {
      r := CreateHoliday(rows, s, name, kind, description, caller);
      if r.Ok? {
        AddKeepsUnique(rows, nextId, r.value);
        rows := rows[nextId := r.value];
        nextId := nextId + 1;
      }
    }

    /** `create_holidays_batch`: the walk over the range, then the inserts. */
    method CreateBatch(startText: string, endText: string, name: string, kind: string,
                       description: Option<string>, caller: Option<User>) returns (r: Result<seq<Holiday>>)
      requires Valid()
      requires ParseYmd(endText).Some? ==> Ordinal(ParseYmd(endText).value) < Ordinal(MaxDate)
      modifies this
      ensures Valid()
      ensures r == BatchResult(old(rows), startText, endText, name, kind, description, caller)
      ensures r.Ok? ==> rows == AddAll(old(rows), old(nextId), r.value) && nextId == old(nextId) + |r.value|
      ensures r.Err? ==> rows == old(rows) && nextId == old(nextId)
    {
      if Refused(caller) {
        return Err(PermissionDenied(AdminOnly));
      }
      var start := ParseYmd(startText);
      var end := ParseYmd(endText);
      if start.None? || end.None? {
        return Err(ValidationError(FormatMessage));
      }
      if Ordinal(start.value) > Ordinal(end.value) {
        return Err(ValidationError("开始日期不能晚于结束日期"));
      }
      if kind !in Kinds {
        return Err(ValidationError(KindMessage));
      }
      var existing, toCreate := Walk(start.value, end.value, name, kind, description);
      if existing != [] {
        return Err(ConflictError(ConflictList(existing)));
      }
      TakenEmpty(rows, Range(start.value, end.value));
      BatchKeepsUnique(rows, nextId, Range(start.value, end.value), name, kind, description);
      InsertAll(toCreate);
      r := Ok(toCreate);
    }

    /** The `while current_date <= end_date` walk, sorting the range's dates into configured and new. */
    method Walk(start: Date, end: Date, name: string, kind: string, description: Option<string>)
      returns (existing: seq<string>, toCreate: seq<Holiday>)
      requires Calendar.Valid(start) && Calendar.Valid(end) && Ordinal(start) <= Ordinal(end) < Ordinal(MaxDate)
      ensures existing == Taken(rows, Range(start, end))
      ensures toCreate == ToCreate(rows, Range(start, end), name, kind, description)
    {
      var current := start;
      toCreate := [];
      existing := [];
      while Ordinal(current) <= Ordinal(end)
        invariant Calendar.Valid(current) && Ordinal(start) <= Ordinal(current) <= Ordinal(end) + 1
        invariant existing + Taken(rows, Range(current, end)) == Taken(rows, Range(start, end))
        invariant toCreate + ToCreate(rows, Range(current, end), name, kind, description)
                  == ToCreate(rows, Range(start, end), name, kind, description)
        decreases Ordinal(end) - Ordinal(current)
      {
        var s := IsoFormat(current);
        WalkStep(rows, current, end, name, kind, description);
        ghost var configured := ByDate(rows, s).Some?;
        AppendAssoc(existing, if configured then [s] else [], Taken(rows, Range(NextDay(current), end)));
        AppendAssoc(toCreate, if configured then [] else [Holiday(s, name, kind, description)],
                    ToCreate(rows, Range(NextDay(current), end), name, kind, description));
        if ByDate(rows, s).Some? {
          existing := existing + [s];
        } else {
          toCreate := toCreate + [Holiday(s, name, kind, description)];
        }
        current := NextDay(current);
      }
    }

    /** Stores `hs` under consecutive ids. */
    method InsertAll(hs: seq<Holiday>)
      requires forall k :: k in rows ==> k < nextId
      modifies this
      ensures rows == AddAll(old(rows), old(nextId), hs) && nextId == old(nextId) + |hs|
      ensures forall k :: k in rows ==> k < nextId
    {
      var k := 0;
      while k < |hs|
        invariant 0 <= k <= |hs| && nextId == old(nextId) + k
        invariant rows == AddAll(old(rows), old(nextId), hs[..k])
        invariant forall j :: j in rows ==> j < nextId
      {
        assert hs[..k + 1][..k] == hs[..k];
        rows := rows[nextId := hs[k]];
        nextId := nextId + 1;
        k := k + 1;
      }
      assert hs[..k] == hs;
    }

    method Update(id: Id, name: Option<string>, kind: Option<string>, description: Option<string>, caller: Option<User>)
      returns (r: Result<Holiday>)
      requires Valid()
      modifies this
      ensures Valid() && nextId == old(nextId)
      ensures r == UpdateHoliday(old(rows), id, name, kind, description, caller)
      ensures r.Ok? ==> rows == old(rows)[id := r.value]
      ensures r.Err? ==> rows == old(rows)
    {
      r := UpdateHoliday(rows, id, name, kind, description, caller);
      if r.Ok? {
        rows := rows[id := r.value];
      }
    }
  }
}
