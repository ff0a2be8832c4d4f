/**
 * The leave workflow (backend/services/leave_service.py): how many approval
 * levels a request needs, who is assigned when it is created, what each
 * role's approval writes, and cancellation.
 *
 * Requests live in a `LeaveTable`, the in-memory stand-in for the
 * `leave_applications` table; its methods update rows in place and are
 * specified by the pure transition functions of this module.
 */
module LeaveService {
  import opened Base
  import opened Calendar
  import opened Models
  import opened ApprovalAssigner

  datatype Level = DepartmentHeadLevel | VicePresidentLevel | GeneralManagerLevel

  /** `get_required_approval_level`. */
  function RequiredLevels(days: real): (r: seq<Level>)
    ensures 1 <= |r| <= 3
    ensures r == [DepartmentHeadLevel, VicePresidentLevel, GeneralManagerLevel][..|r|]
    ensures |r| == 1 <==> days <= 1.0
    ensures |r| == 2 <==> 1.0 < days <= 3.0
    ensures |r| == 3 <==> 3.0 < days
  {
    if days <= 1.0 then [DepartmentHeadLevel]
    else if days <= 3.0 then [DepartmentHeadLevel, VicePresidentLevel]
    else [DepartmentHeadLevel, VicePresidentLevel, GeneralManagerLevel]
  }

  /** The levels only grow with the day count. */
  lemma RequiredLevelsMonotone(d1: real, d2: real)
    requires d1 <= d2
    ensures |RequiredLevels(d1)| <= |RequiredLevels(d2)|
    ensures RequiredLevels(d1) <= RequiredLevels(d2)
  {
  }

  // ---------------------------------------------------------------------
  // Creation.

  /** The (assigned VP, assigned GM) pair a new request is stored with (lines 78-143). */
  function InitialAssignment(applicant: User, days: real, manualVp: Option<Id>, manualGm: Option<Id>, dir: Directory): (Option<Id>, Option<Id>)
  {
    match applicant.role
    case Employee | DepartmentHead =>
      (if VicePresidentLevel in RequiredLevels(days) then ResolveLeaveVp(None, applicant, dir) else None,
       if GeneralManagerLevel in RequiredLevels(days) then ResolveLeaveGm(None, dir) else None)
    case VicePresident =>
      (Some(manualVp.GetOr(applicant.id)),
       if days > 3.0 then ResolveLeaveGm(None, dir) else manualGm)
    case GeneralManager => (manualVp, Some(manualGm.GetOr(applicant.id)))
    case Admin => (manualVp, manualGm)
  }

  /** `create_leave_application`, with the new row's id and creation time passed in. */
  function CreateLeave(applicant: User, start: Instant, end: Instant, days: real, reason: string, leaveTypeId: Id,
                       manualVp: Option<Id>, manualGm: Option<Id>, activeTypes: set<Id>, dir: Directory,
                       id: Id, now: Instant): (r: Result<Leave>)
    ensures end < start ==> r == Err(ValidationError("结束时间不能早于开始时间"))
    ensures start <= end && leaveTypeId !in activeTypes ==> r == Err(NotFoundError("请假类型", Some(leaveTypeId)))
    ensures r.Ok? ==> r.value.status == Pending && r.value.userId == applicant.id && r.value.id == id
                      && r.value.start == start && r.value.end == end && r.value.days == days
                      && r.value.reason == reason && r.value.leaveTypeId == leaveTypeId && r.value.createdAt == now
                      && r.value.dept == EmptyStage && r.value.vp == EmptyStage && r.value.gm == EmptyStage
    ensures r.Err? <==> end < start || leaveTypeId !in activeTypes
                        || (applicant.role == VicePresident && manualVp.Some? && !ActiveIn(dir, manualVp.value, {VicePresident}))
  {
    if end < start then Err(ValidationError("结束时间不能早于开始时间"))
    else if leaveTypeId !in activeTypes then Err(NotFoundError("请假类型", Some(leaveTypeId)))
    else if applicant.role == VicePresident && manualVp.Some? && !ActiveIn(dir, manualVp.value, {VicePresident}) then
      Err(ValidationError("指定的副总不存在或未激活"))
    else
      var (vp, gm) := InitialAssignment(applicant, days, manualVp, manualGm, dir);
      Ok(Leave(id, applicant.id, start, end, days, reason, Pending, leaveTypeId, vp, gm,
               EmptyStage, EmptyStage, EmptyStage, now))
  }

  /**
   * For an employee or department head the manual choices are discarded:
   * a VP is assigned only above one day and only when an active VP exists,
   * a GM only above three days and only when an active GM exists.
   */
  lemma CreateLeaveStaffAssignment(applicant: User, start: Instant, end: Instant, days: real, reason: string, leaveTypeId: Id,
                                   manualVp: Option<Id>, manualGm: Option<Id>, activeTypes: set<Id>, dir: Directory,
                                   id: Id, now: Instant)
    requires applicant.role in {Employee, DepartmentHead}
    requires CreateLeave(applicant, start, end, days, reason, leaveTypeId, manualVp, manualGm, activeTypes, dir, id, now).Ok?
    ensures var l := CreateLeave(applicant, start, end, days, reason, leaveTypeId, manualVp, manualGm, activeTypes, dir, id, now).value;
            (l.assignedVp.Some? <==> days > 1.0 && ActiveWithRole(dir, VicePresident) != {})
            && (l.assignedVp.Some? ==> l.assignedVp == ResolveLeaveVp(None, applicant, dir))
            && (l.assignedGm.Some? <==> days > 3.0 && ActiveWithRole(dir, GeneralManager) != {})
            && (l.assignedGm.Some? ==> ActiveIn(dir, l.assignedGm.value, {GeneralManager}))
  {
  }

  /**
   * A VP applicant is assigned to themselves unless they named another
   * active VP; above three days the GM choice is replaced by resolution.
   */
  lemma CreateLeaveVicePresidentAssignment(applicant: User, start: Instant, end: Instant, days: real, reason: string, leaveTypeId: Id,
                                           manualVp: Option<Id>, manualGm: Option<Id>, activeTypes: set<Id>, dir: Directory,
                                           id: Id, now: Instant)
    requires applicant.role == VicePresident
    requires CreateLeave(applicant, start, end, days, reason, leaveTypeId, manualVp, manualGm, activeTypes, dir, id, now).Ok?
    ensures var l := CreateLeave(applicant, start, end, days, reason, leaveTypeId, manualVp, manualGm, activeTypes, dir, id, now).value;
            (manualVp.None? ==> l.assignedVp == Some(applicant.id))
            && (manualVp.Some? ==> l.assignedVp == manualVp && ActiveIn(dir, manualVp.value, {VicePresident}))
            && (days <= 3.0 ==> l.assignedGm == manualGm)
            && (days > 3.0 ==> l.assignedGm == ResolveLeaveGm(None, dir))
  {
  }

  /** A GM applicant is assigned as GM themselves unless they named someone. */
  lemma CreateLeaveGeneralManagerAssignment(applicant: User, start: Instant, end: Instant, days: real, reason: string, leaveTypeId: Id,
                                            manualVp: Option<Id>, manualGm: Option<Id>, activeTypes: set<Id>, dir: Directory,
                                            id: Id, now: Instant)
    requires applicant.role == GeneralManager
    requires CreateLeave(applicant, start, end, days, reason, leaveTypeId, manualVp, manualGm, activeTypes, dir, id, now).Ok?
    ensures var l := CreateLeave(applicant, start, end, days, reason, leaveTypeId, manualVp, manualGm, activeTypes, dir, id, now).value;
            l.assignedGm == Some(manualGm.GetOr(applicant.id)) && l.assignedVp == manualVp
  {
  }

  // ---------------------------------------------------------------------
  // Approval.

  /** The stage an approval by `approver` fills in. */
  function Signed(approver: User, comment: Option<string>, now: Instant): Stage
  {
    Stage(Some(approver.id), Some(now), comment)
  }

  /** The field writes of `approve_leave` once authorised (lines 201-247). */
  function ApplyApproval(l: Leave, approver: User, approved: bool, comment: Option<string>, now: Instant): Leave
  {
    match approver.role
    case DepartmentHead =>
      l.(status := if !approved then Rejected else if |RequiredLevels(l.days)| == 1 then Approved else DeptApproved,
         dept := Signed(approver, comment, now))
    case VicePresident =>
      l.(status := if !approved then Rejected else if |RequiredLevels(l.days)| == 2 then Approved else VpApproved,
         vp := Signed(approver, comment, now))
    case GeneralManager =>
      l.(status := if approved then Approved else Rejected, gm := Signed(approver, comment, now))
    case Admin | Employee => l
  }

  /** `approve_leave` on the table `rows`: the request as it stands afterwards, or the error. */
  function ApproveLeave(rows: map<Id, Leave>, id: Id, approver: User, approved: bool, comment: Option<string>,
                        now: Instant, dir: Directory): Result<Leave>
  {
    if id !in rows then Err(NotFoundError("请假申请", Some(id)))
    else
      var l := EnsureLeaveAssigned(rows[id], approver, dir);
      var d := AuthorizeLeave(l, approver, dir);
      if !d.allowed then Err(PermissionDenied(if d.reason == "" then "无权审批此申请" else d.reason))
      else Ok(ApplyApproval(l, approver, approved, comment, now))
  }

  /**
   * The table after `approve_leave`. A denied approval still keeps the VP
   * the authoriser resolved and committed before it refused.
   */
  function RowsAfterApprove(rows: map<Id, Leave>, id: Id, approver: User, approved: bool, comment: Option<string>,
                            now: Instant, dir: Directory): map<Id, Leave>
  {
    if id !in rows then rows
    else
      match ApproveLeave(rows, id, approver, approved, comment, now, dir)
      case Ok(l) => rows[id := l]
      case Err(_) => rows[id := EnsureLeaveAssigned(rows[id], approver, dir)]
  }

  /** The outcome of `approve_leave` is the authoriser's verdict, and a refusal carries its reason. */
  lemma ApproveFollowsAuthoriser(rows: map<Id, Leave>, id: Id, approver: User, approved: bool, comment: Option<string>,
                                 now: Instant, dir: Directory)
    requires id in rows
    ensures var d := CanApproveLeave(rows[id], approver, dir);
            var r := ApproveLeave(rows, id, approver, approved, comment, now, dir);
            (r.Ok? <==> d.allowed) && (r.Err? ==> r.error == PermissionDenied(d.reason) && d.reason != "")
  {
    LeaveReasons(rows[id], approver, dir);
  }

  lemma ApproveMissing(rows: map<Id, Leave>, id: Id, approver: User, approved: bool, comment: Option<string>,
                       now: Instant, dir: Directory)
    requires id !in rows
    ensures ApproveLeave(rows, id, approver, approved, comment, now, dir) == Err(NotFoundError("请假申请", Some(id)))
    ensures RowsAfterApprove(rows, id, approver, approved, comment, now, dir) == rows
  {
  }

  /**
   * A refused approval changes no status and no stage: the only field that
   * can differ is the lazily assigned VP, and only from empty.
   */
  lemma DeniedApprovalWritesNoStage(rows: map<Id, Leave>, id: Id, approver: User, approved: bool, comment: Option<string>,
                                    now: Instant, dir: Directory)
    requires id in rows && ApproveLeave(rows, id, approver, approved, comment, now, dir).Err?
    ensures var after := RowsAfterApprove(rows, id, approver, approved, comment, now, dir);
            after.Keys == rows.Keys
            && (forall k :: k in rows && k != id ==> after[k] == rows[k])
            && after[id] == rows[id].(assignedVp := after[id].assignedVp)
            && (after[id].assignedVp != rows[id].assignedVp ==> rows[id].assignedVp.None?)
  {
  }

  /**
   * A department head's approval finishes a request of at most one day and
   * forwards a longer one; a rejection ends it. Only the department slot
   * and the status change.
   */
  lemma DepartmentHeadApproval(l: Leave, approver: User, approved: bool, comment: Option<string>, now: Instant)
    requires approver.role == DepartmentHead
    ensures var r := ApplyApproval(l, approver, approved, comment, now);
            r == l.(status := r.status, dept := Stage(Some(approver.id), Some(now), comment))
            && (r.status == Approved <==> approved && l.days <= 1.0)
            && (r.status == DeptApproved <==> approved && l.days > 1.0)
            && (r.status == Rejected <==> !approved)
  {
  }

  /**
   * A VP's approval finishes a request of more than one and at most three
   * days, and forwards every other one to a GM, including one of at most a
   * single day.
   */
  lemma VicePresidentApproval(l: Leave, approver: User, approved: bool, comment: Option<string>, now: Instant)
    requires approver.role == VicePresident
    ensures var r := ApplyApproval(l, approver, approved, comment, now);
            r == l.(status := r.status, vp := Stage(Some(approver.id), Some(now), comment))
            && (r.status == Approved <==> approved && 1.0 < l.days <= 3.0)
            && (r.status == VpApproved <==> approved && (l.days <= 1.0 || 3.0 < l.days))
            && (r.status == Rejected <==> !approved)
  {
  }

  lemma GeneralManagerApproval(l: Leave, approver: User, approved: bool, comment: Option<string>, now: Instant)
    requires approver.role == GeneralManager
    ensures var r := ApplyApproval(l, approver, approved, comment, now);
            r == l.(status := if approved then Approved else Rejected, gm := Stage(Some(approver.id), Some(now), comment))
  {
  }

  /**
   * An admin passes authorisation on any request whose applicant exists,
   * whatever its status, and `approve_leave` then writes nothing: there is
   * no status re-check in the service itself.
   */
  lemma AdminApprovalIsNoOp(rows: map<Id, Leave>, id: Id, approver: User, approved: bool, comment: Option<string>,
                            now: Instant, dir: Directory)
    requires id in rows && rows[id].userId in dir.users && approver.role == Admin
    ensures ApproveLeave(rows, id, approver, approved, comment, now, dir) == Ok(rows[id])
    ensures RowsAfterApprove(rows, id, approver, approved, comment, now, dir) == rows
  {
    assert rows[id := rows[id]] == rows;
  }

  /**
   * The happy paths by day count, for a request from an employee of
   * department `d`: one approval at most one day, two up to three days,
   * three beyond; the number of approvals is the number of levels.
   */
  lemma ApprovalPaths(l: Leave, dh: User, vp: User, gm: User, now: Instant)
    requires l.status == Pending
    requires dh.role == DepartmentHead && vp.role == VicePresident && gm.role == GeneralManager
    ensures var l1 := ApplyApproval(l, dh, true, None, now);
            var l2 := ApplyApproval(l1, vp, true, None, now);
            var l3 := ApplyApproval(l2, gm, true, None, now);
            (|RequiredLevels(l.days)| == 1 ==> l1.status == Approved)
            && (|RequiredLevels(l.days)| == 2 ==> l1.status == DeptApproved && l2.status == Approved)
            && (|RequiredLevels(l.days)| == 3 ==> l1.status == DeptApproved && l2.status == VpApproved && l3.status == Approved)
  {
  }

  // ---------------------------------------------------------------------
  // Cancellation.

  /** `cancel_leave`. */
  function CancelLeave(rows: map<Id, Leave>, id: Id, user: User): (r: Result<Leave>)
    ensures r.Ok? <==> id in rows && rows[id].userId == user.id && rows[id].status !in {Approved, Rejected}
    ensures r.Ok? ==> r.value == rows[id].(status := Cancelled)
    ensures id !in rows ==> r == Err(NotFoundError("请假申请", Some(id)))
    ensures id in rows && rows[id].userId != user.id ==> r == Err(PermissionDenied("只能取消自己的请假申请"))
    ensures id in rows && rows[id].userId == user.id && rows[id].status in {Approved, Rejected}
            ==> r == Err(ValidationError("已审批的申请不能取消"))
  {
    if id !in rows then Err(NotFoundError("请假申请", Some(id)))
    else if rows[id].userId != user.id then Err(PermissionDenied("只能取消自己的请假申请"))
    else if rows[id].status in {Approved, Rejected} then Err(ValidationError("已审批的申请不能取消"))
    else Ok(rows[id].(status := Cancelled))
  }

  /** Cancelling is idempotent: a cancelled request can be cancelled again, to the same row. */
  lemma CancelIdempotent(rows: map<Id, Leave>, id: Id, user: User)
    requires CancelLeave(rows, id, user).Ok?
    ensures var r := CancelLeave(rows, id, user).value;
            CancelLeave(rows[id := r], id, user) == Ok(r)
  {
  }

  // ---------------------------------------------------------------------
  // The table.

  /** The `leave_applications` rows, updated in place like the ORM objects. */
  class LeaveTable {
    var rows: map<Id, Leave>
    var nextId: Id

    /** Every stored request is keyed by its own id, below the next id handed out. */
    ghost predicate Valid()
      reads this
    {
      forall k :: k in rows ==> rows[k].id == k && k < nextId
    }

    constructor()
      ensures Valid() && rows == map[] && nextId == 1
    {
      rows := map[];
      nextId := 1;
    }

    method Create(applicant: User, start: Instant, end: Instant, days: real, reason: string, leaveTypeId: Id,
                  manualVp: Option<Id>, manualGm: Option<Id>, activeTypes: set<Id>, dir: Directory, now: Instant)
      returns (r: Result<Leave>)
      requires Valid()
      modifies this
      ensures Valid()
      ensures r == CreateLeave(applicant, start, end, days, reason, leaveTypeId, manualVp, manualGm, activeTypes, dir, old(nextId), now)
      ensures r.Ok? ==> r.value.id !in old(rows) && rows == old(rows)[r.value.id := r.value] && nextId == old(nextId) + 1
      ensures r.Err? ==> rows == old(rows) && nextId == old(nextId)
    {
      r := CreateLeave(applicant, start, end, days, reason, leaveTypeId, manualVp, manualGm, activeTypes, dir, nextId, now);
      if r.Ok? {
        rows := rows[nextId := r.value];
        nextId := nextId + 1;
      }
    }

    method Approve(id: Id, approver: User, approved: bool, comment: Option<string>, now: Instant, dir: Directory)
      returns (r: Result<Leave>)
      requires Valid()
      modifies this
      ensures Valid() && nextId == old(nextId)
      ensures r == ApproveLeave(old(rows), id, approver, approved, comment, now, dir)
      ensures rows == RowsAfterApprove(old(rows), id, approver, approved, comment, now, dir)
    {
      r := ApproveLeave(rows, id, approver, approved, comment, now, dir);
      if id in rows {
        rows := rows[id := if r.Ok? then r.value else EnsureLeaveAssigned(rows[id], approver, dir)];
      }
    }

    method Cancel(id: Id, user: User) returns (r: Result<Leave>)
      requires Valid()
      modifies this
      ensures Valid() && nextId == old(nextId)
      ensures r == CancelLeave(old(rows), id, user)
      ensures r.Ok? ==> rows == old(rows)[id := r.value]
      ensures r.Err? ==> rows == old(rows)
    {
      r := CancelLeave(rows, id, user);
      if r.Ok? {
        rows := rows[id := r.value];
      }
    }
  }
}
