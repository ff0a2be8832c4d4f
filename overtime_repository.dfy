/**
 * The overtime list queries (backend/repositories/overtime_repository.py)
 * as filters over the table's rows.
 */
module OvertimeRepository {
  import opened Base
  import opened Calendar
  import opened Models
  import opened ApprovalAssigner
  import opened Listing

  function Newest(o: Overtime): (int, int)
  {
    (o.createdAt, 0)
  }

  /** `order_by(start_time desc, created_at desc)`. */
  function LatestStart(o: Overtime): (int, int)
  {
    (o.start, o.createdAt)
  }

  /**
   * The per-role filter of `get_pending_by_approver`: every list holds
   * pending requests only. A head is compared by the department `.scalar()`
   * reads for them, None (`IS NULL`) included.
   */
  predicate PendingFor(o: Overtime, approverId: Id, role: Role, users: map<Id, User>)
  {
    match role
    case DepartmentHead =>
      o.status == OvertimePending && o.userId in users && users[o.userId].department == DepartmentOf(users, approverId)
    case VicePresident => o.status == OvertimePending && o.assignedApprover == Some(approverId)
    case GeneralManager =>
      o.status == OvertimePending && (o.assignedApprover.None? || o.assignedApprover == Some(approverId))
    case Employee | Admin => true
  }

  function PendingByApprover(rows: seq<Overtime>, approverId: Id, role: Role, users: map<Id, User>, skip: nat, limit: nat): seq<Overtime>
  {
    Query(rows, (o: Overtime) => PendingFor(o, approverId, role, users), Newest, skip, limit)
  }

  predicate OwnedWith(o: Overtime, userId: Id, status: Option<OvertimeStatus>)
  {
    o.userId == userId && (status.None? || o.status == status.value)
  }

  function ByUser(rows: seq<Overtime>, userId: Id, status: Option<OvertimeStatus>, skip: nat, limit: nat): seq<Overtime>
  {
    Query(rows, (o: Overtime) => OwnedWith(o, userId, status), Newest, skip, limit)
  }

  /** The optional filters of `get_all_by_date_range`; an absent bound does not filter. */
  predicate InWindow(o: Overtime, fromDay: Option<int>, toDay: Option<int>, userId: Option<Id>)
  {
    (fromDay.None? || o.end >= At(fromDay.value, 0))
    && (toDay.None? || o.start <= At(toDay.value, SecondsPerDay - 1))
    && (userId.None? || o.userId == userId.value)
  }

  function AllByDateRange(rows: seq<Overtime>, fromDay: Option<int>, toDay: Option<int>, userId: Option<Id>,
                          skip: nat, limit: nat): seq<Overtime>
  {
    Query(rows, (o: Overtime) => InWindow(o, fromDay, toDay, userId), LatestStart, skip, limit)
  }

  /**
   * The date-range list keeps requests whose span touches the days
   * `fromDay..toDay`, latest start first and, among equal starts, newest
   * first; without a bound every row of the user qualifies.
   */
  lemma AllByDateRangeContents(rows: seq<Overtime>, fromDay: Option<int>, toDay: Option<int>, userId: Option<Id>,
                               skip: nat, limit: nat)
    ensures var r := AllByDateRange(rows, fromDay, toDay, userId, skip, limit);
            SortedDesc(r, LatestStart) && |r| <= limit
            && (forall i, j :: 0 <= i < j < |r| ==> r[i].start >= r[j].start)
            && (forall i, j :: 0 <= i < j < |r| && r[i].start == r[j].start ==> r[i].createdAt >= r[j].createdAt)
            && forall o :: o in r ==> (o in rows
                                     && (fromDay.Some? ==> DayOf(o.end) >= fromDay.value)
                                     && (toDay.Some? ==> DayOf(o.start) <= toDay.value)
                                     && (userId.Some? ==> o.userId == userId.value))
  {
    var r := AllByDateRange(rows, fromDay, toDay, userId, skip, limit);
    QueryContents(rows, (o: Overtime) => InWindow(o, fromDay, toDay, userId), LatestStart, skip, limit);
    forall o | o in r
      ensures (fromDay.Some? ==> DayOf(o.end) >= fromDay.value) && (toDay.Some? ==> DayOf(o.start) <= toDay.value)
    {
      if fromDay.Some? {
        AtParts(fromDay.value, 0);
      }
      if toDay.Some? {
        AtParts(toDay.value, SecondsPerDay - 1);
      }
    }
  }

  /** Without bounds, filter or paging the date-range list is a reordering of every row. */
  lemma AllByDateRangeUnbounded(rows: seq<Overtime>, limit: nat)
    requires |rows| <= limit
    ensures multiset(AllByDateRange(rows, None, None, None, 0, limit)) == multiset(rows)
  {
    var r := AllByDateRange(rows, None, None, None, 0, limit);
    QueryContents(rows, (o: Overtime) => InWindow(o, None, None, None), LatestStart, 0, limit);
    assert forall x :: multiset(r)[x] == multiset(rows)[x];
  }

  /**
   * The department-head, VP and GM lists hold pending requests of their
   * approver only, and a first page large enough holds every one of them.
   */
  lemma PendingListsByRole(rows: seq<Overtime>, approverId: Id, role: Role, users: map<Id, User>, skip: nat, limit: nat)
    ensures var r := PendingByApprover(rows, approverId, role, users, skip, limit);
            SortedDesc(r, Newest) && |r| <= limit
            && (forall o :: o in r ==> o in rows)
            && (role in {DepartmentHead, VicePresident, GeneralManager} ==> forall o :: o in r ==> o.status == OvertimePending)
            && (role == DepartmentHead ==> forall o :: o in r ==> (o.userId in users
                                                 && users[o.userId].department == DepartmentOf(users, approverId)))
            && (role == VicePresident ==> forall o :: o in r ==> o.assignedApprover == Some(approverId))
            && (role == GeneralManager ==> forall o :: o in r ==> o.assignedApprover.None? || o.assignedApprover == Some(approverId))
    ensures skip == 0 && |rows| <= limit ==>
              forall o :: o in rows && PendingFor(o, approverId, role, users)
                ==> o in PendingByApprover(rows, approverId, role, users, skip, limit)
  {
    QueryContents(rows, (o: Overtime) => PendingFor(o, approverId, role, users), Newest, skip, limit);
    if skip == 0 && |rows| <= limit {
      QueryComplete(rows, (o: Overtime) => PendingFor(o, approverId, role, users), Newest, limit);
    }
  }

  lemma ByUserContents(rows: seq<Overtime>, userId: Id, status: Option<OvertimeStatus>, skip: nat, limit: nat)
    ensures var r := ByUser(rows, userId, status, skip, limit);
            SortedDesc(r, Newest) && |r| <= limit
            && forall o :: o in r ==> o in rows && o.userId == userId && (status.Some? ==> o.status == status.value)
    ensures skip == 0 && |rows| <= limit ==>
              forall o :: o in rows && o.userId == userId && (status.Some? ==> o.status == status.value)
                ==> o in ByUser(rows, userId, status, skip, limit)
  {
    QueryContents(rows, (o: Overtime) => OwnedWith(o, userId, status), Newest, skip, limit);
    if skip == 0 && |rows| <= limit {
      QueryComplete(rows, (o: Overtime) => OwnedWith(o, userId, status), Newest, limit);
    }
  }

  /** Whoever a pending list shows a request to may act on it, given the stored approver and an existing applicant. */
  lemma ListedMeansAllowed(o: Overtime, approver: User, dir: Directory)
    requires approver.role in {DepartmentHead, VicePresident, GeneralManager}
    requires approver.id in dir.users && dir.users[approver.id] == approver && o.userId in dir.users
    requires PendingFor(o, approver.id, approver.role, dir.users)
    ensures CanApproveOvertime(o, approver, dir).allowed
  {
  }

  /**
   * An unassigned pending request is not in any VP's list, although the
   * VP the resolution chain picks may approve it.
   */
  lemma UnassignedHiddenFromVicePresident(o: Overtime, approver: User, dir: Directory)
    requires approver.role == VicePresident && o.userId in dir.users && o.status == OvertimePending
    requires o.assignedApprover.None? && ResolveOvertimeApprover(None, dir.users[o.userId], dir) == Some(approver.id)
    ensures CanApproveOvertime(o, approver, dir).allowed
    ensures !PendingFor(o, approver.id, approver.role, dir.users)
  {
  }

  /** A department head without a department lists and may approve the pending requests of department-less applicants. */
  lemma DepartmentlessHeadListed(o: Overtime, approver: User, dir: Directory)
    requires approver.role == DepartmentHead && approver.department.None?
    requires approver.id in dir.users && dir.users[approver.id] == approver
    requires o.userId in dir.users && dir.users[o.userId].department.None? && o.status == OvertimePending
    ensures CanApproveOvertime(o, approver, dir).allowed
    ensures PendingFor(o, approver.id, approver.role, dir.users)
  {
  }
}
