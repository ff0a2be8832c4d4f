/**
 * The leave list queries (backend/repositories/leave_repository.py) as
 * filters over the table's rows, and how the "pending for me" lists relate
 * to who is actually allowed to act.
 */
module LeaveRepository {
  import opened Base
  import opened Calendar
  import opened Models
  import opened ApprovalAssigner
  import opened Listing

  /** `order_by(created_at desc)`. */
  function Newest(l: Leave): (int, int)
  {
    (l.createdAt, 0)
  }

  /**
   * The per-role filter of `get_pending_by_approver`. The department-head
   * case joins the applicant and compares their department with the
   * approver's, which `.scalar()` has already read; when that read gives
   * None, SQLAlchemy renders `department_id == None` as `IS NULL`, so the
   * head then lists the requests of applicants without a department.
   */
  predicate PendingFor(l: Leave, approverId: Id, role: Role, users: map<Id, User>)
  {
    match role
    case DepartmentHead =>
      l.status == Pending && l.userId in users && users[l.userId].department == DepartmentOf(users, approverId)
    case VicePresident => l.status == DeptApproved && l.assignedVp == Some(approverId)
    case GeneralManager => l.status == VpApproved && (l.assignedGm.None? || l.assignedGm == Some(approverId))
    case Employee | Admin => true
  }

  function PendingByApprover(rows: seq<Leave>, approverId: Id, role: Role, users: map<Id, User>, skip: nat, limit: nat): seq<Leave>
  {
    Query(rows, (l: Leave) => PendingFor(l, approverId, role, users), Newest, skip, limit)
  }

  /** `get_by_user`: the user's rows, optionally of one status. */
  predicate OwnedWith(l: Leave, userId: Id, status: Option<LeaveStatus>)
  {
    l.userId == userId && (status.None? || l.status == status.value)
  }

  function ByUser(rows: seq<Leave>, userId: Id, status: Option<LeaveStatus>, skip: nat, limit: nat): seq<Leave>
  {
    Query(rows, (l: Leave) => OwnedWith(l, userId, status), Newest, skip, limit)
  }

  /** The statuses `get_by_date_range` keeps: everything not rejected or cancelled. */
  const Live := {Pending, DeptApproved, VpApproved, Approved}

  /**
   * The span overlaps the days `fromDay..toDay`: it starts no later than
   * 23:59:59.999999 of `toDay` and ends no earlier than 00:00 of `fromDay`.
   * At whole-second resolution the first bound is the last second of the day.
   */
  predicate Overlaps(start: Instant, end: Instant, fromDay: int, toDay: int)
  {
    start <= At(toDay, SecondsPerDay - 1) && end >= At(fromDay, 0)
  }

  /** On calendar days: the span's first day is not after `toDay` and its last day not before `fromDay`. */
  lemma OverlapsByDay(start: Instant, end: Instant, fromDay: int, toDay: int)
    ensures Overlaps(start, end, fromDay, toDay) <==> DayOf(start) <= toDay && DayOf(end) >= fromDay
  {
    AtParts(toDay, SecondsPerDay - 1);
    AtParts(fromDay, 0);
  }

  predicate InRangeFor(l: Leave, userId: Id, fromDay: int, toDay: int)
  {
    l.userId == userId && Overlaps(l.start, l.end, fromDay, toDay) && l.status in Live
  }

  /** `get_by_date_range`: no ordering is requested, so scan order is kept. */
  function ByDateRange(rows: seq<Leave>, userId: Id, fromDay: int, toDay: int): (r: seq<Leave>)
    ensures forall l :: l in r <==> (l in rows && l.userId == userId && l.status in Live
                                     && DayOf(l.start) <= toDay && DayOf(l.end) >= fromDay)
  {
    var r := Filter(rows, (l: Leave) => InRangeFor(l, userId, fromDay, toDay));
    assert forall l :: l in r <==> l in rows && InRangeFor(l, userId, fromDay, toDay) by {
      forall l | l in rows && InRangeFor(l, userId, fromDay, toDay)
        ensures l in r
      {
        assert multiset(rows)[l] > 0;
      }
    }
    forall l: Leave {
      OverlapsByDay(l.start, l.end, fromDay, toDay);
    }
    r
  }

  /** The department-head, VP and GM lists are exactly the rows of their status that match the approver. */
  lemma PendingListsByRole(rows: seq<Leave>, approverId: Id, role: Role, users: map<Id, User>, skip: nat, limit: nat)
    ensures var r := PendingByApprover(rows, approverId, role, users, skip, limit);
            SortedDesc(r, Newest) && |r| <= limit
            && (forall l :: l in r ==> l in rows)
            && (role == DepartmentHead ==> forall l :: l in r ==> (l.status == Pending && l.userId in users
                                                 && users[l.userId].department == DepartmentOf(users, approverId)))
            && (role == VicePresident ==> forall l :: l in r ==> l.status == DeptApproved && l.assignedVp == Some(approverId))
            && (role == GeneralManager ==> forall l :: l in r ==> (l.status == VpApproved
                                                 && (l.assignedGm.None? || l.assignedGm == Some(approverId))))
    ensures skip == 0 && |rows| <= limit ==>
              forall l :: l in rows && PendingFor(l, approverId, role, users)
                ==> l in PendingByApprover(rows, approverId, role, users, skip, limit)
    ensures role in {Employee, Admin} && skip == 0 && |rows| <= limit ==>
              multiset(PendingByApprover(rows, approverId, role, users, skip, limit)) == multiset(rows)
  {
    QueryContents(rows, (l: Leave) => PendingFor(l, approverId, role, users), Newest, skip, limit);
    if skip == 0 && |rows| <= limit {
      QueryComplete(rows, (l: Leave) => PendingFor(l, approverId, role, users), Newest, limit);
      if role in {Employee, Admin} {
        var r := PendingByApprover(rows, approverId, role, users, skip, limit);
        assert forall x :: multiset(r)[x] == multiset(rows)[x];
      }
    }
  }

  lemma ByUserContents(rows: seq<Leave>, userId: Id, status: Option<LeaveStatus>, skip: nat, limit: nat)
    ensures var r := ByUser(rows, userId, status, skip, limit);
            SortedDesc(r, Newest) && |r| <= limit
            && forall l :: l in r ==> l in rows && l.userId == userId && (status.Some? ==> l.status == status.value)
    ensures skip == 0 && |rows| <= limit ==>
              forall l :: l in rows && l.userId == userId && (status.Some? ==> l.status == status.value)
                ==> l in ByUser(rows, userId, status, skip, limit)
  {
    QueryContents(rows, (l: Leave) => OwnedWith(l, userId, status), Newest, skip, limit);
    if skip == 0 && |rows| <= limit {
      QueryComplete(rows, (l: Leave) => OwnedWith(l, userId, status), Newest, limit);
    }
  }

  /**
   * Whoever a pending list shows a request to may act on it, provided the
   * approver is the stored user and the applicant exists.
   */
  lemma ListedMeansAllowed(l: Leave, approver: User, dir: Directory)
    requires approver.role in {DepartmentHead, VicePresident, GeneralManager}
    requires approver.id in dir.users && dir.users[approver.id] == approver && l.userId in dir.users
    requires PendingFor(l, approver.id, approver.role, dir.users)
    ensures CanApproveLeave(l, approver, dir).allowed
  {
  }

  /** A VP's own pending request assigned to themselves is authorised but missing from their list. */
  lemma VicePresidentOwnRequestUnlisted(l: Leave, approver: User, dir: Directory)
    requires approver.role == VicePresident && l.userId == approver.id && l.userId in dir.users
    requires l.status == Pending && l.assignedVp == Some(approver.id)
    ensures CanApproveLeave(l, approver, dir).allowed
    ensures !PendingFor(l, approver.id, approver.role, dir.users)
  {
  }

  /**
   * A department head without a department both lists and may approve the
   * pending requests of applicants without one: the list compares with
   * `IS NULL`, the authoriser compares None with None.
   */
  lemma DepartmentlessHeadListed(l: Leave, approver: User, dir: Directory)
    requires approver.role == DepartmentHead && approver.department.None?
    requires approver.id in dir.users && dir.users[approver.id] == approver
    requires l.userId in dir.users && dir.users[l.userId].department.None? && l.status == Pending
    ensures CanApproveLeave(l, approver, dir).allowed
    ensures PendingFor(l, approver.id, approver.role, dir.users)
  {
  }

  /** An approver id with no user row lists the pending leaves of department-less applicants, as `.scalar()` gives None. */
  lemma UnknownHeadListsDepartmentless(l: Leave, approverId: Id, users: map<Id, User>)
    requires approverId !in users && l.userId in users && l.status == Pending
    ensures PendingFor(l, approverId, DepartmentHead, users) <==> users[l.userId].department.None?
  {
  }
}
