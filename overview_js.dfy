/**
 * The attendance overview page of the mini program
 * (miniprogram/pages/overview/overview.js): the rows the server sends for
 * one day are sorted into four groups (on leave, on overtime, checked in,
 * not checked in), each person is turned into a card, and the groups
 * that the page shows are laid out in a fixed order.
 *
 * The page's own `formatLeaveDateTime` and `formatOvertimeDateTime` are
 * the same code as those of frontend/mobile/js/utils/format.js and are
 * taken from `DateFormat`. A day count is a number of half days, as there.
 */
module Overview {
  import opened Base
  import opened Text
  import opened Listing
  import DateFormat

  /** One row of `overview.items`; a missing or null string field is `[]`, a missing day count `None`. */
  datatype Item = Item(
    userId: int,
    realName: string,
    hasLeave: bool,
    hasOvertime: bool,
    checkinTime: string,
    leaveStartDate: string,
    leaveEndDate: string,
    leaveDays: Option<int>,
    overtimeStartTime: string,
    overtimeEndTime: string,
    overtimeDays: Option<int>)

  /** The `category` argument of `buildPerson`; it also names the group the person lands in. */
  datatype Kind = Leave | Overtime | Checked | NotChecked

  /** What `getStatusInfo` returns. */
  datatype StatusInfo = StatusInfo(date: string, time: string, days: string, extra: string)

  /** A person card; `checkinTime` is the field the checked-in cards carry on top of `buildPerson`'s. */
  datatype Person = Person(
    userId: int,
    name: string,
    date: string,
    time: string,
    days: string,
    extra: string,
    compact: bool,
    checkinTime: Option<string>)

  /** `${days}天`. */
  function DaysText(h: int): string
  {
    DateFormat.HalfDaysText(h) + "天"
  }

  /** The card of a leave or overtime with a start: its printed range and its days, one day if none is given. */
  function DatedStatus(start: string, end: string, days: Option<int>): (r: StatusInfo)
    ensures r.date == [] <==> r.time == []
    ensures r.days == DaysText(days.GetOr(2))
    ensures var dt := DateFormat.FormatDateTime(start, end);
            r.date == dt.date && r.time == dt.time && StartsWith(r.extra, dt.date + " " + dt.time + " ")
  {
    var dt := DateFormat.FormatDateTime(start, end);
    var d := DateFormat.HalfDaysText(days.GetOr(2));
    var head := dt.date + " " + dt.time + " ";
    assert (head + ("共" + d + "天"))[..|head|] == head;
    StatusInfo(dt.date, dt.time, d + "天", head + ("共" + d + "天"))
  }

  /** The card of a leave or overtime without a start: its days if they are truthy, else the bare word. */
  function UndatedStatus(days: Option<int>, word: string): (r: StatusInfo)
    requires word != []
    ensures r.date == [] && r.time == []
    ensures r.days == [] <==> days.None? || days.value == 0
    ensures r.extra == if r.days == [] then word else r.days
  {
    var t := if days.Some? && days.value != 0 then DaysText(days.value) else [];
    StatusInfo([], [], t, if t != [] then t else word)
  }

  /** `getStatusInfo(category, item)`. */
  function GetStatusInfo(k: Kind, item: Item): (r: StatusInfo)
    ensures k == NotChecked || k == Checked ==> r == StatusInfo([], [], [], [])
    ensures k == Leave || k == Overtime ==> r.extra != []
    ensures r.date == [] <==> r.time == []
    ensures k == Leave && item.leaveStartDate != [] ==> r.days == DaysText(item.leaveDays.GetOr(2))
    ensures k == Overtime && item.overtimeStartTime != [] ==> r.days == DaysText(item.overtimeDays.GetOr(2))
    ensures k == Leave && item.leaveStartDate == [] ==> r.date == [] && (r.extra == if r.days == [] then "请假" else r.days)
    ensures k == Overtime && item.overtimeStartTime == [] ==> r.date == [] && (r.extra == if r.days == [] then "加班" else r.days)
  {
    match k
    case NotChecked => StatusInfo([], [], [], [])
    case Checked => StatusInfo([], [], [], [])
    case Leave =>
      if item.leaveStartDate != [] then DatedStatus(item.leaveStartDate, item.leaveEndDate, item.leaveDays)
      else UndatedStatus(item.leaveDays, "请假")
    case Overtime =>
      if item.overtimeStartTime != [] then DatedStatus(item.overtimeStartTime, item.overtimeEndTime, item.overtimeDays)
      else UndatedStatus(item.overtimeDays, "加班")
  }

  /** A dated leave or overtime whose day count is missing is shown as one day. */
  lemma MissingDaysIsOneDay(item: Item)
    ensures item.leaveStartDate != [] && item.leaveDays.None? ==> GetStatusInfo(Leave, item).days == OneDay
    ensures item.overtimeStartTime != [] && item.overtimeDays.None? ==> GetStatusInfo(Overtime, item).days == OneDay
  {
    DateFormat.DefaultDaysText();
    assert DaysText(2) == OneDay;
  }

  const OneDay := "1天"

  /** `buildPerson(item, category)`. */
  function BuildPerson(item: Item, k: Kind): (p: Person)
    ensures p.compact <==> k == NotChecked || k == Checked
    ensures p.userId == item.userId && p.name == item.realName && p.checkinTime.None?
    ensures var info := GetStatusInfo(k, item);
            p.date == info.date && p.time == info.time && p.days == info.days && p.extra == info.extra
  {
    var info := GetStatusInfo(k, item);
    Person(item.userId, item.realName, info.date, info.time, info.days, info.extra, k == NotChecked || k == Checked, None)
  }

  /** The card pushed for an item of kind `k`: checked-in cards also keep the check-in time. */
  function Entry(item: Item, k: Kind): Person
  {
    if k == Checked then BuildPerson(item, k).(checkinTime := Some(item.checkinTime))
    else BuildPerson(item, k)
  }

  /** The group an entry of `items` lands in: none for a falsy entry, else the first flag that holds. */
  function Classify(o: Option<Item>): (r: Option<Kind>)
    ensures r.None? <==> o.None?
    ensures r == Some(Leave) <==> o.Some? && o.value.hasLeave
    ensures r == Some(Overtime) <==> o.Some? && !o.value.hasLeave && o.value.hasOvertime
    ensures r == Some(Checked) <==> o.Some? && !o.value.hasLeave && !o.value.hasOvertime && o.value.checkinTime != []
    ensures r == Some(NotChecked) <==> o.Some? && !o.value.hasLeave && !o.value.hasOvertime && o.value.checkinTime == []
  {
    match o
    case None => None
    case Some(x) =>
      if x.hasLeave then Some(Leave)
      else if x.hasOvertime then Some(Overtime)
      else if x.checkinTime != [] then Some(Checked)
      else Some(NotChecked)
  }

  /** The entries of group `k`, in the order of `items`. */
  function Members(items: seq<Option<Item>>, k: Kind): (r: seq<Item>)
    ensures |r| <= |items|
  {
    if items == [] then []
    else
      var o := items[|items| - 1];
      Members(items[..|items| - 1], k) + (if Classify(o) == Some(k) then [o.value] else [])
  }

  /** The card of each entry. */
  function Cards(xs: seq<Item>, k: Kind): (r: seq<Person>)
    ensures |r| == |xs| && forall j :: 0 <= j < |xs| ==> r[j] == Entry(xs[j], k)
  {
    seq(|xs|, j requires 0 <= j < |xs| => Entry(xs[j], k))
  }

  /** The cards of group `k`, in the order of `items`. */
  function Bucket(items: seq<Option<Item>>, k: Kind): (r: seq<Person>)
    ensures |r| <= |items|
  {
    if items == [] then []
    else
      var o := items[|items| - 1];
      Bucket(items[..|items| - 1], k) + (if Classify(o) == Some(k) then [Entry(o.value, k)] else [])
  }

  lemma BucketSnoc(items: seq<Option<Item>>, i: nat, k: Kind)
    requires i < |items|
    ensures Bucket(items[..i + 1], k) == Bucket(items[..i], k) + (if Classify(items[i]) == Some(k) then [Entry(items[i].value, k)] else [])
  {
    assert items[..i + 1][..i] == items[..i];
  }

  /** A group's cards are the cards of its entries. */
  lemma {:induction false} BucketIsCards(items: seq<Option<Item>>, k: Kind)
    ensures Bucket(items, k) == Cards(Members(items, k), k)
  {
    if items != [] {
      var n := |items| - 1;
      BucketIsCards(items[..n], k);
      var xs := Members(items[..n], k);
      if Classify(items[n]) == Some(k) {
        CardsSnoc(xs, items[n].value, k);
      } else {
        assert Members(items, k) == xs;
      }
    }
  }

  lemma CardsSnoc(xs: seq<Item>, x: Item, k: Kind)
    ensures Cards(xs + [x], k) == Cards(xs, k) + [Entry(x, k)]
  {
    var a, b := Cards(xs + [x], k), Cards(xs, k) + [Entry(x, k)];
    assert |a| == |b|;
    forall j | 0 <= j < |a|
      ensures a[j] == b[j]
    {
      if j < |xs| {
        assert (xs + [x])[j] == xs[j];
      }
    }
  }

  /** The number of truthy entries. */
  function Present(items: seq<Option<Item>>): nat
  {
    if items == [] then 0
    else Present(items[..|items| - 1]) + (if items[|items| - 1].Some? then 1 else 0)
  }

  /** The four groups together hold one card per truthy entry: no entry is lost and none is counted twice. */
  lemma {:induction false} BucketsPartition(items: seq<Option<Item>>)
    ensures |Bucket(items, Leave)| + |Bucket(items, Overtime)| + |Bucket(items, Checked)| + |Bucket(items, NotChecked)| == Present(items)
  {
    if items != [] {
      BucketsPartition(items[..|items| - 1]);
    }
  }

  /** Every truthy entry's card is in the group its flags choose. */
  lemma BucketHolds(items: seq<Option<Item>>, i: nat, k: Kind)
    requires i < |items| && Classify(items[i]) == Some(k)
    ensures Entry(items[i].value, k) in Bucket(items, k)
  {
    BucketIsCards(items, k);
    var xs := Members(items, k);
    MemberHolds(items, i, k);
    var j :| 0 <= j < |xs| && xs[j] == items[i].value;
    assert Bucket(items, k)[j] == Entry(items[i].value, k);
  }

  lemma {:induction false} MemberHolds(items: seq<Option<Item>>, i: nat, k: Kind)
    requires i < |items| && Classify(items[i]) == Some(k)
    ensures items[i].value in Members(items, k)
  {
    var n := |items| - 1;
    if i < n {
      var prefix := items[..n];
      assert prefix[i] == items[i];
      MemberHolds(prefix, i, k);
    }
  }

  /** Every card of a group comes from an entry whose flags choose that group. */
  lemma BucketComesFrom(items: seq<Option<Item>>, k: Kind, p: Person)
    requires p in Bucket(items, k)
    ensures exists i :: 0 <= i < |items| && Classify(items[i]) == Some(k) && p == Entry(items[i].value, k)
  {
    BucketIsCards(items, k);
    var xs := Members(items, k);
    var j :| 0 <= j < |xs| && Bucket(items, k)[j] == p;
    MemberComesFrom(items, k, xs[j]);
    var i :| 0 <= i < |items| && Classify(items[i]) == Some(k) && xs[j] == items[i].value;
    assert p == Entry(items[i].value, k);
  }

  lemma {:induction false} MemberComesFrom(items: seq<Option<Item>>, k: Kind, x: Item)
    requires x in Members(items, k)
    ensures exists i :: 0 <= i < |items| && Classify(items[i]) == Some(k) && x == items[i].value
  {
    var n := |items| - 1;
    if x in Members(items[..n], k) {
      MemberComesFrom(items[..n], k, x);
      var i :| 0 <= i < n && Classify(items[..n][i]) == Some(k) && x == items[..n][i].value;
      assert items[..n][i] == items[i];
    } else {
      assert Classify(items[n]) == Some(k) && x == items[n].value;
    }
  }

  /** A card of the checked-in or not-checked group is compact; a leave or overtime card is not. */
  lemma BucketCompact(items: seq<Option<Item>>, k: Kind)
    ensures forall p :: p in Bucket(items, k) ==> (p.compact <==> k == NotChecked || k == Checked)
  {
    BucketIsCards(items, k);
    var r := Bucket(items, k);
    forall p | p in r
      ensures p.compact <==> k == NotChecked || k == Checked
    {
      var j :| 0 <= j < |r| && r[j] == p;
    }
  }

  /** One group of the page. */
  datatype Category = Category(kind: Kind, count: int, list: seq<Person>)
  {
    function Key(): string
    {
      match kind
      case Leave => "onLeave"
      case NotChecked => "notChecked"
      case Overtime => "onOvertime"
      case Checked => "checkedIn"
    }

    function Title(): string
    {
      match kind
      case Leave => "请假中"
      case NotChecked => "未打卡"
      case Overtime => "加班中"
      case Checked => "已打卡"
    }

    function Tone(): string
    {
      match kind
      case Leave => "info"
      case NotChecked => "danger"
      case Overtime => "warning"
      case Checked => "success"
    }
  }

  function Section(k: Kind, list: seq<Person>): Category
  {
    Category(k, |list|, list)
  }

  /** The place of each group on a workday. */
  function Rank(k: Kind): nat
  {
    match k
    case Leave => 0
    case NotChecked => 1
    case Overtime => 2
    case Checked => 3
  }

  predicate Shows(r: seq<Category>, k: Kind)
  {
    exists i :: 0 <= i < |r| && r[i].kind == k
  }

  /** A group shown only when it has somebody in it. */
  function Optional(k: Kind, list: seq<Person>): (r: seq<Category>)
    ensures |r| <= 1 && (r != [] <==> list != [])
    ensures forall i :: 0 <= i < |r| ==> r[i] == Section(k, list)
  {
    if list != [] then [Section(k, list)] else []
  }

  /** The list of group `k` among the four. */
  function ListFor(k: Kind, onLeave: seq<Person>, notChecked: seq<Person>, onOvertime: seq<Person>, checkedIn: seq<Person>): seq<Person>
  {
    match k
    case Leave => onLeave
    case NotChecked => notChecked
    case Overtime => onOvertime
    case Checked => checkedIn
  }

  /** The groups shown, from the four lists. */
  function Layout(isWorkday: bool, onLeave: seq<Person>, notChecked: seq<Person>, onOvertime: seq<Person>, checkedIn: seq<Person>): (r: seq<Category>)
    ensures !isWorkday ==> r == Optional(Overtime, onOvertime)
    ensures isWorkday ==> r != [] && r[|r| - 1] == Section(Checked, checkedIn)
  {
    if !isWorkday then Optional(Overtime, onOvertime)
    else Optional(Leave, onLeave) + Optional(NotChecked, notChecked) + Optional(Overtime, onOvertime) + [Section(Checked, checkedIn)]
  }

  /** Where each piece of a workday layout sits. */
  lemma LayoutPieces(onLeave: seq<Person>, notChecked: seq<Person>, onOvertime: seq<Person>, checkedIn: seq<Person>)
    ensures var r := Layout(true, onLeave, notChecked, onOvertime, checkedIn);
            var na, nb, nc := |Optional(Leave, onLeave)|, |Optional(NotChecked, notChecked)|, |Optional(Overtime, onOvertime)|;
            && |r| == na + nb + nc + 1
            && (forall i :: 0 <= i < na ==> r[i] == Section(Leave, onLeave))
            && (forall i :: na <= i < na + nb ==> r[i] == Section(NotChecked, notChecked))
            && (forall i :: na + nb <= i < na + nb + nc ==> r[i] == Section(Overtime, onOvertime))
            && r[|r| - 1] == Section(Checked, checkedIn)
  {
    var a, b, c := Optional(Leave, onLeave), Optional(NotChecked, notChecked), Optional(Overtime, onOvertime);
    var r := a + b + c + [Section(Checked, checkedIn)];
    assert forall i :: 0 <= i < |a| ==> r[i] == a[i];
    assert forall i :: |a| <= i < |a| + |b| ==> r[i] == b[i - |a|];
    assert forall i :: |a| + |b| <= i < |a| + |b| + |c| ==> r[i] == c[i - |a| - |b|];
  }

  /** Every group shown on a workday carries its own list and that list's size. */
  lemma WorkdayLists(onLeave: seq<Person>, notChecked: seq<Person>, onOvertime: seq<Person>, checkedIn: seq<Person>)
    ensures var r := Layout(true, onLeave, notChecked, onOvertime, checkedIn);
            && (forall i :: 0 <= i < |r| ==> r[i].count == |r[i].list|)
            && (forall i :: 0 <= i < |r| ==> r[i].list == ListFor(r[i].kind, onLeave, notChecked, onOvertime, checkedIn))
  {
    LayoutPieces(onLeave, notChecked, onOvertime, checkedIn);
  }

  /** On a workday the groups come in the order leave, not checked, overtime, checked in. */
  lemma WorkdayOrder(onLeave: seq<Person>, notChecked: seq<Person>, onOvertime: seq<Person>, checkedIn: seq<Person>)
    ensures var r := Layout(true, onLeave, notChecked, onOvertime, checkedIn);
            forall i, j :: 0 <= i < j < |r| ==> Rank(r[i].kind) < Rank(r[j].kind)
  {
    LayoutPieces(onLeave, notChecked, onOvertime, checkedIn);
  }

  /** On a workday the first three groups are shown exactly when they are non-empty, and the checked-in group always. */
  lemma WorkdayShows(onLeave: seq<Person>, notChecked: seq<Person>, onOvertime: seq<Person>, checkedIn: seq<Person>)
    ensures var r := Layout(true, onLeave, notChecked, onOvertime, checkedIn);
            && (Shows(r, Leave) <==> onLeave != []) && (Shows(r, NotChecked) <==> notChecked != [])
            && (Shows(r, Overtime) <==> onOvertime != []) && Shows(r, Checked)
  {
    LayoutPieces(onLeave, notChecked, onOvertime, checkedIn);
    var r := Layout(true, onLeave, notChecked, onOvertime, checkedIn);
    var na, nb := |Optional(Leave, onLeave)|, |Optional(NotChecked, notChecked)|;
    assert Shows(r, Checked) by { assert r[|r| - 1].kind == Checked; }
    assert onLeave != [] ==> Shows(r, Leave) by { if onLeave != [] { assert r[0].kind == Leave; } }
    assert notChecked != [] ==> Shows(r, NotChecked) by { if notChecked != [] { assert r[na].kind == NotChecked; } }
    assert onOvertime != [] ==> Shows(r, Overtime) by { if onOvertime != [] { assert r[na + nb].kind == Overtime; } }
  }

  /** On a rest day only the overtime group can be shown, and only when it is non-empty. */
  lemma RestDayLayout(onLeave: seq<Person>, notChecked: seq<Person>, onOvertime: seq<Person>, checkedIn: seq<Person>)
    ensures var r := Layout(false, onLeave, notChecked, onOvertime, checkedIn);
            |r| <= 1 && (r != [] <==> onOvertime != [])
            && (forall i :: 0 <= i < |r| ==> r[i].kind == Overtime && r[i].count == |onOvertime| && r[i].list == onOvertime)
  {
  }

  /** The counts shown on a workday add up to the sizes of the four lists. */
  lemma WorkdaySum(onLeave: seq<Person>, notChecked: seq<Person>, onOvertime: seq<Person>, checkedIn: seq<Person>)
    ensures SumCounts(Layout(true, onLeave, notChecked, onOvertime, checkedIn)) == |onLeave| + |notChecked| + |onOvertime| + |checkedIn|
  {
    var a, b, c := Optional(Leave, onLeave), Optional(NotChecked, notChecked), Optional(Overtime, onOvertime);
    var d := [Section(Checked, checkedIn)];
    SumCountsAppend(a + b + c, d);
    SumCountsAppend(a + b, c);
    SumCountsAppend(a, b);
    assert SumCounts(d) == |checkedIn| by { assert d[..0] == []; }
    OptionalSum(Leave, onLeave);
    OptionalSum(NotChecked, notChecked);
    OptionalSum(Overtime, onOvertime);
  }

  lemma OptionalSum(k: Kind, list: seq<Person>)
    ensures SumCounts(Optional(k, list)) == |list|
  {
    var r := Optional(k, list);
    if r != [] {
      assert r[..0] == [];
    }
  }

  /** The server's answer. `items` is `None` when it is not an array. */
  datatype OverviewData = OverviewData(items: Option<seq<Option<Item>>>, isWorkday: bool)

  function ItemsOf(o: OverviewData): seq<Option<Item>>
  {
    if o.items.Some? then o.items.value else []
  }

  /**
   * The sort key of a checked-in card: `new Date(checkin_time).getTime()`,
   * given as `timeOf`, or 0 when the card has no time or `timeOf` gives
   * no value.
   */
  function CheckinKey(timeOf: string -> Option<int>, p: Person): (int, int)
  {
    match p.checkinTime
    case Some(t) => if t != [] && timeOf(t).Some? then (timeOf(t).value, 0) else (0, 0)
    case None => (0, 0)
  }

  function CheckinOrder(timeOf: string -> Option<int>): Person -> (int, int)
  {
    p => CheckinKey(timeOf, p)
  }

  /** What `formatOverview` returns. */
  function Categories(o: OverviewData, timeOf: string -> Option<int>): seq<Category>
  {
    var items := ItemsOf(o);
    Layout(o.isWorkday, Bucket(items, Leave), Bucket(items, NotChecked), Bucket(items, Overtime),
           SortDesc(Bucket(items, Checked), CheckinOrder(timeOf)))
  }

  /** The loop of `formatOverview` over `overview.items`: each truthy item's card into the list its flags choose. */
  method Partition(items: seq<Option<Item>>) returns (onLeave: seq<Person>, onOvertime: seq<Person>, checkedIn: seq<Person>, notChecked: seq<Person>)
    ensures onLeave == Bucket(items, Leave) && onOvertime == Bucket(items, Overtime)
    ensures checkedIn == Bucket(items, Checked) && notChecked == Bucket(items, NotChecked)
  {
    notChecked := [];
    checkedIn := [];
    onLeave := [];
    onOvertime := [];
    var i := 0;
    while i < |items|
      invariant 0 <= i <= |items|
      invariant onLeave == Bucket(items[..i], Leave)
      invariant onOvertime == Bucket(items[..i], Overtime)
      invariant checkedIn == Bucket(items[..i], Checked)
      invariant notChecked == Bucket(items[..i], NotChecked)
    {
      BucketSnoc(items, i, Leave);
      BucketSnoc(items, i, Overtime);
      BucketSnoc(items, i, Checked);
      BucketSnoc(items, i, NotChecked);
      var item := items[i];
      if item.Some? {
        var x := item.value;
        if x.hasLeave {
          onLeave := onLeave + [BuildPerson(x, Leave)];
        } else if x.hasOvertime {
          onOvertime := onOvertime + [BuildPerson(x, Overtime)];
        } else if x.checkinTime != [] {
          checkedIn := checkedIn + [BuildPerson(x, Checked).(checkinTime := Some(x.checkinTime))];
        } else {
          notChecked := notChecked + [BuildPerson(x, NotChecked)];
        }
      }
      i := i + 1;
    }
    assert items[..i] == items;
  }

  /** `formatOverview(overview)`: one pass over the items into four lists, the checked-in list sorted latest first, then the groups. */
  method FormatOverview(o: OverviewData, timeOf: string -> Option<int>) returns (categories: seq<Category>)
    ensures categories == Categories(o, timeOf)
  {
    var items := if o.items.Some? then o.items.value else [];
    var onLeave, onOvertime, checkedIn, notChecked := Partition(items);
    checkedIn := SortDesc(checkedIn, CheckinOrder(timeOf));
    categories := Groups(o.isWorkday, onLeave, notChecked, onOvertime, checkedIn);
  }

  /** The tail of `formatOverview`: the pushes of the groups that are shown, in page order. */
  method Groups(isWorkday: bool, onLeave: seq<Person>, notChecked: seq<Person>, onOvertime: seq<Person>, checkedIn: seq<Person>)
    returns (categories: seq<Category>)
    ensures categories == Layout(isWorkday, onLeave, notChecked, onOvertime, checkedIn)
  {
    categories := [];
    if !isWorkday {
      if |onOvertime| > 0 {
        categories := categories + [Category(Overtime, |onOvertime|, onOvertime)];
      }
      assert categories == Optional(Overtime, onOvertime);
      return;
    }
    if |onLeave| > 0 {
      categories := categories + [Category(Leave, |onLeave|, onLeave)];
    }
    assert categories == Optional(Leave, onLeave);
    if |notChecked| > 0 {
      categories := categories + [Category(NotChecked, |notChecked|, notChecked)];
    }
    assert categories == Optional(Leave, onLeave) + Optional(NotChecked, notChecked);
    if |onOvertime| > 0 {
      categories := categories + [Category(Overtime, |onOvertime|, onOvertime)];
    }
    assert categories == Optional(Leave, onLeave) + Optional(NotChecked, notChecked) + Optional(Overtime, onOvertime);
    categories := categories + [Category(Checked, |checkedIn|, checkedIn)];
  }

  /**
   * On a workday the checked-in group is always shown, last, with the
   * checked-in cards latest first and none added or dropped.
   */
  lemma CheckedInLast(o: OverviewData, timeOf: string -> Option<int>)
    requires o.isWorkday
    ensures var r := Categories(o, timeOf);
            var c := r[|r| - 1];
            r != [] && c.kind == Checked && c.count == |c.list|
            && SortedDesc(c.list, CheckinOrder(timeOf))
            && multiset(c.list) == multiset(Bucket(ItemsOf(o), Checked))
  {
  }

  /** On a rest day only the overtime group can be shown, and only when somebody works overtime. */
  lemma RestDayShowsOvertimeOnly(o: OverviewData, timeOf: string -> Option<int>)
    requires !o.isWorkday
    ensures var r := Categories(o, timeOf);
            |r| <= 1 && (r != [] <==> Bucket(ItemsOf(o), Overtime) != [])
            && (r != [] ==> r[0] == Section(Overtime, Bucket(ItemsOf(o), Overtime)))
  {
  }

  /** Across the groups a workday shows, every truthy item is on exactly one card. */
  lemma WorkdayCountsAddUp(o: OverviewData, timeOf: string -> Option<int>)
    requires o.isWorkday
    ensures SumCounts(Categories(o, timeOf)) == Present(ItemsOf(o))
  {
    var items := ItemsOf(o);
    var checked := SortDesc(Bucket(items, Checked), CheckinOrder(timeOf));
    assert |checked| == |Bucket(items, Checked)| by {
      assert |multiset(checked)| == |multiset(Bucket(items, Checked))|;
    }
    BucketsPartition(items);
    WorkdaySum(Bucket(items, Leave), Bucket(items, NotChecked), Bucket(items, Overtime), checked);
  }

  function SumCounts(r: seq<Category>): int
  {
    if r == [] then 0 else SumCounts(r[..|r| - 1]) + r[|r| - 1].count
  }

  lemma {:induction false} SumCountsAppend(r: seq<Category>, s: seq<Category>)
    ensures SumCounts(r + s) == SumCounts(r) + SumCounts(s)
  {
    if s != [] {
      assert (r + s)[..|r + s| - 1] == r + s[..|s| - 1];
      SumCountsAppend(r, s[..|s| - 1]);
    } else {
      assert r + s == r;
    }
  }
}
