/**
 * The overtime workflow (backend/services/overtime_service.py): a single
 * approval stage. Creation picks the approver, approval records the
 * decision, an update patches the request's own fields, and cancellation
 * ends it.
 */
module OvertimeService {
  import opened Base
  import opened Calendar
  import opened Models
  import opened ApprovalAssigner

  // ---------------------------------------------------------------------
  // Creation.

  /**
   * The approver stored on a new request before the post-insert fallback
   * (lines 59-81): for staff an empty choice is filled with the active head
   * of their department, a VP defaults to themselves, a GM too.
   */
  function ChosenApprover(applicant: User, manual: Option<Id>, dir: Directory): Option<Id>
  {
    match applicant.role
    case Employee | DepartmentHead =>
      if manual.None? then ActiveHead(dir, applicant.department) else manual
    case VicePresident | GeneralManager => Some(manual.GetOr(applicant.id))
    case Admin => manual
  }

  /** `create_overtime_application`, with the new row's id and creation time passed in. */
  function CreateOvertime(applicant: User, start: Instant, end: Instant, hours: real, days: real, reason: string,
                          kind: string, manual: Option<Id>, dir: Directory, id: Id, now: Instant): (r: Result<Overtime>)
    ensures end < start ==> r == Err(ValidationError("结束时间不能早于开始时间"))
    ensures r.Err? <==> end < start
                        || (applicant.role == VicePresident && manual.Some? && !ActiveIn(dir, manual.value, {VicePresident}))
    ensures r.Ok? ==> r.value.status == OvertimePending && r.value.userId == applicant.id && r.value.id == id
                      && r.value.start == start && r.value.end == end && r.value.hours == hours
                      && r.value.days == days && r.value.reason == reason && r.value.kind == kind
                      && r.value.approver.None? && r.value.approvedAt.None? && r.value.comment.None?
                      && r.value.createdAt == now
  {
    if end < start then Err(ValidationError("结束时间不能早于开始时间"))
    else if applicant.role == VicePresident && manual.Some? && !ActiveIn(dir, manual.value, {VicePresident}) then
      Err(ValidationError("指定的副总不存在或未激活"))
    else
      var chosen := ChosenApprover(applicant, manual, dir);
      var approverId :=
        if chosen.None? && applicant.role in {Employee, DepartmentHead} then ResolveOvertimeApprover(None, applicant, dir)
        else chosen;
      Ok(Overtime(id, applicant.id, start, end, hours, days, reason, kind, OvertimePending,
                  approverId, None, None, None, now))
  }

  /**
   * For staff a supplied approver is stored as given, without validation;
   * otherwise the active department head is taken, and only without one
   * does the resolution chain run.
   */
  lemma CreateOvertimeStaffApprover(applicant: User, start: Instant, end: Instant, hours: real, days: real, reason: string,
                                    kind: string, manual: Option<Id>, dir: Directory, id: Id, now: Instant)
    requires applicant.role in {Employee, DepartmentHead} && start <= end
    ensures var o := CreateOvertime(applicant, start, end, hours, days, reason, kind, manual, dir, id, now).value;
            (manual.Some? ==> o.assignedApprover == manual)
            && (manual.None? && ActiveHead(dir, applicant.department).Some? ==> o.assignedApprover == ActiveHead(dir, applicant.department))
            && (manual.None? && ActiveHead(dir, applicant.department).None?
                ==> o.assignedApprover == ResolveOvertimeApprover(None, applicant, dir))
            && (manual.None? ==> (o.assignedApprover.None? <==> (ActiveHead(dir, applicant.department).None?
                                   && ActiveWithRole(dir, VicePresident) == {} && ActiveWithRole(dir, GeneralManager) == {})))
  {
  }

  /** A VP applicant approves their own overtime unless they name another active VP; a GM always defaults to themselves. */
  lemma CreateOvertimeExecutiveApprover(applicant: User, start: Instant, end: Instant, hours: real, days: real, reason: string,
                                        kind: string, manual: Option<Id>, dir: Directory, id: Id, now: Instant)
    requires applicant.role in {VicePresident, GeneralManager}
    requires CreateOvertime(applicant, start, end, hours, days, reason, kind, manual, dir, id, now).Ok?
    ensures var o := CreateOvertime(applicant, start, end, hours, days, reason, kind, manual, dir, id, now).value;
            o.assignedApprover == Some(manual.GetOr(applicant.id))
            && (applicant.role == VicePresident && manual.Some? ==> ActiveIn(dir, manual.value, {VicePresident}))
  {
  }

  // ---------------------------------------------------------------------
  // Approval.

  /** `approve_overtime` on the table: the request afterwards, or the error. */
  function ApproveOvertime(rows: map<Id, Overtime>, id: Id, approver: User, approved: bool, comment: Option<string>,
                           now: Instant, dir: Directory): Result<Overtime>
  {
    if id !in rows then Err(NotFoundError("加班申请", Some(id)))
    else
      var o := EnsureOvertimeAssigned(rows[id], approver, dir);
      var d := AuthorizeOvertime(o, approver, dir);
      if !d.allowed then Err(PermissionDenied(if d.reason == "" then "无权审批此申请" else d.reason))
      else Ok(o.(status := if approved then OvertimeApproved else OvertimeRejected,
                 approver := Some(approver.id), approvedAt := Some(now), comment := comment))
  }

  /** The table after `approve_overtime`; a refusal keeps only the lazily resolved approver. */
  function RowsAfterApprove(rows: map<Id, Overtime>, id: Id, approver: User, approved: bool, comment: Option<string>,
                            now: Instant, dir: Directory): map<Id, Overtime>
  {
    if id !in rows then rows
    else
      match ApproveOvertime(rows, id, approver, approved, comment, now, dir)
      case Ok(o) => rows[id := o]
      case Err(_) => rows[id := EnsureOvertimeAssigned(rows[id], approver, dir)]
  }

  /**
   * Every authorised role records the same decision: the status, the
   * deciding user, the time and the comment, and nothing else but the
   * lazily resolved approver.
   */
  lemma ApproveOvertimeOutcome(rows: map<Id, Overtime>, id: Id, approver: User, approved: bool, comment: Option<string>,
                               now: Instant, dir: Directory)
    requires id in rows
    ensures var r := ApproveOvertime(rows, id, approver, approved, comment, now, dir);
            var d := CanApproveOvertime(rows[id], approver, dir);
            (r.Ok? <==> d.allowed)
            && (r.Err? ==> r.error == PermissionDenied(d.reason))
            && (r.Ok? ==> r.value == rows[id].(assignedApprover := r.value.assignedApprover,
                                             status := if approved then OvertimeApproved else OvertimeRejected,
                                             approver := Some(approver.id), approvedAt := Some(now), comment := comment))
            && (r.Ok? ==> rows[id].status == OvertimePending)
  {
    OvertimeReasons(rows[id], approver, dir);
  }

  /** A refusal changes nothing but, possibly, an empty assigned approver. */
  lemma DeniedOvertimeWritesNothing(rows: map<Id, Overtime>, id: Id, approver: User, approved: bool, comment: Option<string>,
                                    now: Instant, dir: Directory)
    requires id in rows && ApproveOvertime(rows, id, approver, approved, comment, now, dir).Err?
    ensures var after := RowsAfterApprove(rows, id, approver, approved, comment, now, dir);
            after.Keys == rows.Keys
            && (forall k :: k in rows && k != id ==> after[k] == rows[k])
            && after[id] == rows[id].(assignedApprover := after[id].assignedApprover)
            && (after[id].assignedApprover != rows[id].assignedApprover ==> rows[id].assignedApprover.None?)
  {
  }

  // ---------------------------------------------------------------------
  // Update.

  /** The optional arguments of `update_overtime_application`; `None` leaves a field alone. */
  datatype OvertimePatch = OvertimePatch(
    start: Option<Instant>,
    end: Option<Instant>,
    hours: Option<real>,
    days: Option<real>,
    reason: Option<string>,
    kind: Option<string>)

  /**
   * `days % 0.5 == 0`: the day count is a whole or half number. The
   * binary float the source uses represents these values exactly.
   */
  predicate IsHalfMultiple(d: real)
  {
    (2.0 * d).Floor as real == 2.0 * d
  }

  /** The half-multiples are exactly the numbers `k / 2` for an integer `k`. */
  lemma HalfMultiples(d: real, k: int)
    ensures IsHalfMultiple(k as real / 2.0)
    ensures IsHalfMultiple(d) ==> d == (2.0 * d).Floor as real / 2.0
  {
    assert 2.0 * (k as real / 2.0) == k as real;
  }

  function Patched(o: Overtime, p: OvertimePatch): (r: Overtime)
    ensures r.id == o.id && r.userId == o.userId && r.status == o.status
    ensures r.assignedApprover == o.assignedApprover && r.approver == o.approver
    ensures r.approvedAt == o.approvedAt && r.comment == o.comment && r.createdAt == o.createdAt
  {
    o.(start := p.start.GetOr(o.start), end := p.end.GetOr(o.end), hours := p.hours.GetOr(o.hours),
       days := p.days.GetOr(o.days), reason := p.reason.GetOr(o.reason), kind := p.kind.GetOr(o.kind))
  }

  /** `update_overtime_application`. */
  function UpdateOvertime(rows: map<Id, Overtime>, id: Id, user: User, p: OvertimePatch): (r: Result<Overtime>)
    ensures id !in rows ==> r == Err(NotFoundError("加班申请", Some(id)))
    ensures r.Ok? <==> (id in rows
                        && (rows[id].userId == user.id || user.role == Admin)
                        && (rows[id].status == OvertimePending || user.role == Admin)
                        && (p.days.Some? ==> IsHalfMultiple(p.days.value))
                        && Patched(rows[id], p).start <= Patched(rows[id], p).end)
    ensures r.Ok? ==> r.value == Patched(rows[id], p)
    ensures id in rows && rows[id].userId != user.id && user.role != Admin
            ==> r == Err(PermissionDenied("只能更新自己的申请"))
  {
    if id !in rows then Err(NotFoundError("加班申请", Some(id)))
    else
      var o := rows[id];
      if o.userId != user.id && user.role != Admin then Err(PermissionDenied("只能更新自己的申请"))
      else if o.status != OvertimePending && user.role != Admin then Err(ValidationError("只能更新待审批状态的申请"))
      else if p.days.Some? && !IsHalfMultiple(p.days.value) then
        Err(ValidationError("加班天数只能是整数或整数.5（如1, 1.5, 2, 2.5）"))
      else if Patched(o, p).end < Patched(o, p).start then Err(ValidationError("结束时间不能早于开始时间"))
      else Ok(Patched(o, p))
  }

  /** An empty patch by the owner of a pending request returns it unchanged. */
  lemma EmptyPatchIsIdentity(rows: map<Id, Overtime>, id: Id, user: User)
    requires id in rows && rows[id].userId == user.id && rows[id].status == OvertimePending
    requires rows[id].start <= rows[id].end
    ensures UpdateOvertime(rows, id, user, OvertimePatch(None, None, None, None, None, None)) == Ok(rows[id])
  {
  }

  // ---------------------------------------------------------------------
  // Cancellation.

  /** `cancel_overtime`. */
  function CancelOvertime(rows: map<Id, Overtime>, id: Id, user: User): (r: Result<Overtime>)
    ensures r.Ok? <==> (id in rows && rows[id].userId == user.id
                        && rows[id].status !in {OvertimeApproved, OvertimeRejected})
    ensures r.Ok? ==> r.value == rows[id].(status := OvertimeCancelled)
    ensures id in rows && rows[id].userId != user.id ==> r == Err(PermissionDenied("只能取消自己的加班申请"))
    ensures id in rows && rows[id].userId == user.id && rows[id].status in {OvertimeApproved, OvertimeRejected}
            ==> r == Err(ValidationError("已审批的申请不能取消"))
  {
    if id !in rows then Err(NotFoundError("加班申请", Some(id)))
    else if rows[id].userId != user.id then Err(PermissionDenied("只能取消自己的加班申请"))
    else if rows[id].status in {OvertimeApproved, OvertimeRejected} then Err(ValidationError("已审批的申请不能取消"))
    else Ok(rows[id].(status := OvertimeCancelled))
  }

  // ---------------------------------------------------------------------
  // The table.

  /** The `overtime_applications` rows, updated in place. */
  class OvertimeTable {
    var rows: map<Id, Overtime>
    var nextId: Id

    ghost predicate Valid()
      reads this
    {
      forall k :: k in rows ==> rows[k].id == k && k < nextId
    }

    constructor()
      ensures Valid() && rows == map[] && nextId == 1
    {
      rows := map[];
      nextId := 1;
    }

    method Create(applicant: User, start: Instant, end: Instant, hours: real, days: real, reason: string,
                  kind: string, manual: Option<Id>, dir: Directory, now: Instant) returns (r: Result<Overtime>)
      requires Valid()
      modifies this
      ensures Valid()
      ensures r == CreateOvertime(applicant, start, end, hours, days, reason, kind, manual, dir, old(nextId), now)
      ensures r.Ok? ==> r.value.id !in old(rows) && rows == old(rows)[r.value.id := r.value] && nextId == old(nextId) + 1
      ensures r.Err? ==> rows == old(rows) && nextId == old(nextId)
    {
      r := CreateOvertime(applicant, start, end, hours, days, reason, kind, manual, dir, nextId, now);
      if r.Ok? {
        rows := rows[nextId := r.value];
        nextId := nextId + 1;
      }
    }

    method Approve(id: Id, approver: User, approved: bool, comment: Option<string>, now: Instant, dir: Directory)
      returns (r: Result<Overtime>)
      requires Valid()
      modifies this
      ensures Valid() && nextId == old(nextId)
      ensures r == ApproveOvertime(old(rows), id, approver, approved, comment, now, dir)
      ensures rows == RowsAfterApprove(old(rows), id, approver, approved, comment, now, dir)
    {
      r := ApproveOvertime(rows, id, approver, approved, comment, now, dir);
      if id in rows {
        rows := rows[id := if r.Ok? then r.value else EnsureOvertimeAssigned(rows[id], approver, dir)];
      }
    }

    method Update(id: Id, user: User, p: OvertimePatch) returns (r: Result<Overtime>)
      requires Valid()
      modifies this
      ensures Valid() && nextId == old(nextId)
      ensures r == UpdateOvertime(old(rows), id, user, p)
      ensures r.Ok? ==> rows == old(rows)[id := r.value]
      ensures r.Err? ==> rows == old(rows)
    {
      r := UpdateOvertime(rows, id, user, p);
      if r.Ok? {
        rows := rows[id := r.value];
      }
    }

    method Cancel(id: Id, user: User) returns (r: Result<Overtime>)
      requires Valid()
      modifies this
      ensures Valid() && nextId == old(nextId)
      ensures r == CancelOvertime(old(rows), id, user)
      ensures r.Ok? ==> rows == old(rows)[id := r.value]
      ensures r.Err? ==> rows == old(rows)
    {
      r := CancelOvertime(rows, id, user);
      if r.Ok? {
        rows := rows[id := r.value];
      }
    }
  }
}
