/**
 * Approver resolution and authorisation (backend/approval_assigner.py).
 *
 * Resolution is a first-match priority chain: a valid manual choice, then
 * the VP who supervises the applicant's department (a default link before
 * any other link), then, for overtime only, the department head, then the
 * lowest-id active VP or GM.
 *
 * The source's `can_approve_*` functions resolve a missing VP or overtime
 * approver lazily and write it back onto the request. Here that write is
 * its own step, `EnsureLeaveAssigned` / `EnsureOvertimeAssigned`, and the
 * decision itself (`AuthorizeLeave` / `AuthorizeOvertime`) changes nothing;
 * `CanApproveLeave` / `CanApproveOvertime` compose the two exactly as the
 * source interleaves them.
 */
module ApprovalAssigner {
  import opened Base
  import opened Models

  // ---------------------------------------------------------------------
  // Resolution.

  /** Links of `dept` whose VP is an active VP (the joined query), optionally only default ones. */
  function SupervisingLinks(dir: Directory, dept: Id, defaultOnly: bool): set<Id>
  {
    set k | k in dir.links && dir.links[k].department == dept
                           && (dir.links[k].isDefault || !defaultOnly)
                           && ActiveIn(dir, dir.links[k].vp, {VicePresident})
  }

  /** `vp` supervises `dept` through one of those links. */
  predicate Supervises(dir: Directory, vp: Id, dept: Id, defaultOnly: bool)
  {
    exists k :: k in SupervisingLinks(dir, dept, defaultOnly) && dir.links[k].vp == vp
  }

  /**
   * `query(VicePresidentDepartment).join(User)...first()`. The query has no
   * ORDER BY; the model takes the link with the lowest id.
   */
  function LinkedVp(dir: Directory, dept: Id, defaultOnly: bool): (r: Option<Id>)
    ensures r.None? <==> SupervisingLinks(dir, dept, defaultOnly) == {}
    ensures r.Some? ==> ActiveIn(dir, r.value, {VicePresident}) && Supervises(dir, r.value, dept, defaultOnly)
  {
    match FirstId(SupervisingLinks(dir, dept, defaultOnly))
    case None => None
    case Some(k) => Some(dir.links[k].vp)
  }

  /** The supervision rule: a default-linked VP first, then any linked VP. */
  function DepartmentVp(dir: Directory, dept: Option<Id>): (r: Option<Id>)
    ensures r.Some? ==> ActiveIn(dir, r.value, {VicePresident})
    ensures r.None? <==> dept.None? || SupervisingLinks(dir, dept.value, false) == {}
    ensures r.Some? ==> Supervises(dir, r.value, dept.value, false)
    ensures dept.Some? && SupervisingLinks(dir, dept.value, true) != {} ==> Supervises(dir, r.value, dept.value, true)
  {
    if dept.None? then None
    else
      var d := dept.value;
      assert SupervisingLinks(dir, d, true) <= SupervisingLinks(dir, d, false);
      match LinkedVp(dir, d, true)
      case Some(v) =>
        var k :| k in SupervisingLinks(dir, d, true) && dir.links[k].vp == v;
        assert k in SupervisingLinks(dir, d, false);
        Some(v)
      case None => LinkedVp(dir, d, false)
  }

  /** `first VP = query(User).filter(role == VP, active).order_by(User.id).first()`. */
  function FirstActive(dir: Directory, role: Role): (r: Option<Id>)
    ensures r.None? <==> ActiveWithRole(dir, role) == {}
    ensures r.Some? ==> ActiveIn(dir, r.value, {role})
    ensures r.Some? ==> forall u :: u in ActiveWithRole(dir, role) ==> r.value <= u
  {
    FirstId(ActiveWithRole(dir, role))
  }

  /** `assign_vice_president_for_leave`. */
  function ResolveLeaveVp(manual: Option<Id>, applicant: User, dir: Directory): (r: Option<Id>)
    ensures r.Some? ==> ActiveIn(dir, r.value, {VicePresident})
    ensures r.None? <==> ActiveWithRole(dir, VicePresident) == {}
    ensures manual.Some? ==> (r == manual <==> ActiveIn(dir, manual.value, {VicePresident}))
    ensures ManualMisses(manual, dir, {VicePresident}) && applicant.department.Some?
            && SupervisingLinks(dir, applicant.department.value, false) != {}
            ==> r.Some? && Supervises(dir, r.value, applicant.department.value, false)
    ensures ManualMisses(manual, dir, {VicePresident}) && applicant.department.Some?
            && SupervisingLinks(dir, applicant.department.value, true) != {}
            ==> r.Some? && Supervises(dir, r.value, applicant.department.value, true)
    ensures ManualMisses(manual, dir, {VicePresident}) && DepartmentVp(dir, applicant.department).None?
            ==> r == FirstActive(dir, VicePresident)
  {
    if manual.Some? && ActiveIn(dir, manual.value, {VicePresident}) then
      assert manual.value in ActiveWithRole(dir, VicePresident);
      manual
    else
      match DepartmentVp(dir, applicant.department)
      case Some(v) =>
        assert v in ActiveWithRole(dir, VicePresident);
        Some(v)
      case None => FirstActive(dir, VicePresident)
  }

  /** The manual choice is absent or does not name an active user with one of `roles`. */
  predicate ManualMisses(manual: Option<Id>, dir: Directory, roles: set<Role>)
  {
    manual.None? || !ActiveIn(dir, manual.value, roles)
  }

  /** `assign_general_manager_for_leave`. */
  function ResolveLeaveGm(manual: Option<Id>, dir: Directory): (r: Option<Id>)
    ensures r.Some? ==> ActiveIn(dir, r.value, {GeneralManager})
    ensures r.None? <==> ActiveWithRole(dir, GeneralManager) == {}
    ensures manual.Some? ==> (r == manual <==> ActiveIn(dir, manual.value, {GeneralManager}))
    ensures ManualMisses(manual, dir, {GeneralManager}) && r.Some?
            ==> forall g :: g in ActiveWithRole(dir, GeneralManager) ==> r.value <= g
  {
    if manual.Some? && ActiveIn(dir, manual.value, {GeneralManager}) then
      assert manual.value in ActiveWithRole(dir, GeneralManager);
      manual
    else FirstActive(dir, GeneralManager)
  }

  /** The applicant's department head, when recorded and active (any role). */
  function ActiveHead(dir: Directory, dept: Option<Id>): (r: Option<Id>)
    ensures r.Some? <==> (dept.Some? && dept.value in dir.departments
                          && dir.departments[dept.value].head.Some?
                          && dir.departments[dept.value].head.value in dir.users
                          && dir.users[dir.departments[dept.value].head.value].active)
    ensures r.Some? ==> r == dir.departments[dept.value].head
  {
    if dept.Some? && dept.value in dir.departments then
      var head := dir.departments[dept.value].head;
      if head.Some? && head.value in dir.users && dir.users[head.value].active then head else None
    else None
  }

  const Approvers := {DepartmentHead, VicePresident, GeneralManager}

  /** `assign_approver_for_overtime`. */
  function ResolveOvertimeApprover(manual: Option<Id>, applicant: User, dir: Directory): (r: Option<Id>)
    ensures r.Some? ==> r.value in dir.users && dir.users[r.value].active
    ensures manual.Some? && ActiveIn(dir, manual.value, Approvers) ==> r == manual
    ensures ManualMisses(manual, dir, Approvers) && applicant.department.Some?
            && SupervisingLinks(dir, applicant.department.value, false) != {}
            ==> r.Some? && Supervises(dir, r.value, applicant.department.value, false)
    ensures ManualMisses(manual, dir, Approvers) && applicant.department.Some?
            && SupervisingLinks(dir, applicant.department.value, true) != {}
            ==> r.Some? && Supervises(dir, r.value, applicant.department.value, true)
    ensures ManualMisses(manual, dir, Approvers) && DepartmentVp(dir, applicant.department).None?
            && ActiveHead(dir, applicant.department).Some?
            ==> r == ActiveHead(dir, applicant.department)
    ensures ManualMisses(manual, dir, Approvers) && DepartmentVp(dir, applicant.department).None?
            && ActiveHead(dir, applicant.department).None?
            ==> r == (if FirstActive(dir, VicePresident).Some? then FirstActive(dir, VicePresident)
                      else FirstActive(dir, GeneralManager))
    ensures r.None? <==> ManualMisses(manual, dir, Approvers) && ActiveHead(dir, applicant.department).None?
                         && ActiveWithRole(dir, VicePresident) == {} && ActiveWithRole(dir, GeneralManager) == {}
  {
    if manual.Some? && ActiveIn(dir, manual.value, Approvers) then manual
    else
      match DepartmentVp(dir, applicant.department)
      case Some(v) =>
        assert v in ActiveWithRole(dir, VicePresident);
        Some(v)
      case None =>
        match ActiveHead(dir, applicant.department)
        case Some(h) => Some(h)
        case None =>
          match FirstActive(dir, VicePresident)
          case Some(v) => Some(v)
          case None => FirstActive(dir, GeneralManager)
  }

  // ---------------------------------------------------------------------
  // Authorisation of leave.

  /** `(allowed, reason)`; every denial carries a reason. */
  datatype Decision = Decision(allowed: bool, reason: string)

  const Allow := Decision(true, "")

  function Deny(reason: string): Decision
  {
    Decision(false, reason)
  }

  /**
   * The VP id the authoriser writes back onto a leave request: only when a
   * VP acts on a `dept_approved` request of an existing applicant whose
   * `assigned_vp_id` is empty, and only when resolution finds someone.
   */
  function LeaveVpToWrite(l: Leave, approver: User, dir: Directory): (r: Option<Id>)
    ensures r.Some? ==> l.assignedVp.None? && l.status == DeptApproved && approver.role == VicePresident
    ensures r.Some? ==> ActiveIn(dir, r.value, {VicePresident})
  {
    if approver.role == VicePresident && l.userId in dir.users && l.status == DeptApproved && l.assignedVp.None? then
      ResolveLeaveVp(None, dir.users[l.userId], dir)
    else None
  }

  /** The explicit lazy-assignment step in front of `AuthorizeLeave` (lines 248-254). */
  function EnsureLeaveAssigned(l: Leave, approver: User, dir: Directory): (r: Leave)
    ensures r == l.(assignedVp := r.assignedVp)
    ensures l.assignedVp.Some? ==> r == l
    ensures r.assignedVp != l.assignedVp ==> l.assignedVp.None? && ActiveIn(dir, r.assignedVp.value, {VicePresident})
  {
    match LeaveVpToWrite(l, approver, dir)
    case Some(v) => l.(assignedVp := Some(v))
    case None => l
  }

  /** The applicant is the head of record of their own department. */
  predicate HeadsApplicantDept(dir: Directory, applicant: User, approver: User)
  {
    applicant.department.Some? && applicant.department.value in dir.departments
    && dir.departments[applicant.department.value].head == Some(approver.id)
  }

  /** `can_approve_leave` once any lazy assignment has been stored: no side effect. */
  function AuthorizeLeave(l: Leave, approver: User, dir: Directory): Decision
  {
    if l.userId !in dir.users then Deny("申请人不存在")
    else
      var applicant := dir.users[l.userId];
      if approver.role == VicePresident && l.userId == approver.id && l.status == Pending && l.assignedVp == Some(approver.id) then Allow
      else if approver.role == GeneralManager && l.userId == approver.id && l.status == Pending then Allow
      else
        match approver.role
        case DepartmentHead =>
          if l.status != Pending then Deny("该申请不在待部门主任审批状态")
          else if applicant.department != approver.department then Deny("只能审批本部门员工的申请")
          else Allow
        case VicePresident =>
          if l.status == Pending then
            if applicant.role == VicePresident && l.assignedVp == Some(approver.id) then Allow
            else if HeadsApplicantDept(dir, applicant, approver) then Allow
            else Deny("该申请不在待您审批状态")
          else if l.status != DeptApproved then Deny("该申请不在待副总审批状态")
          else if l.assignedVp != Some(approver.id) then Deny("该申请未分配给您审批")
          else Allow
        case GeneralManager =>
          if l.status != VpApproved then Deny("该申请不在待总经理审批状态")
          else if l.assignedGm.Some? && l.assignedGm != Some(approver.id) then Deny("该申请未分配给您审批")
          else Allow
        case Admin => Allow
        case Employee => Deny("权限不足")
  }

  /** `can_approve_leave` as the source runs it: lazy assignment, then the decision. */
  function CanApproveLeave(l: Leave, approver: User, dir: Directory): Decision
  {
    AuthorizeLeave(EnsureLeaveAssigned(l, approver, dir), approver, dir)
  }

  /** The VP the `dept_approved` stage is for: the stored one, or the one resolution finds. */
  function EffectiveVp(l: Leave, applicant: User, dir: Directory): Option<Id>
  {
    if l.assignedVp.Some? then l.assignedVp else ResolveLeaveVp(None, applicant, dir)
  }

  /** A denial always explains itself and an approval never carries a reason. */
  lemma LeaveReasons(l: Leave, approver: User, dir: Directory)
    ensures CanApproveLeave(l, approver, dir).allowed <==> CanApproveLeave(l, approver, dir).reason == ""
  {
  }

  lemma LeaveMissingApplicant(l: Leave, approver: User, dir: Directory)
    requires l.userId !in dir.users
    ensures CanApproveLeave(l, approver, dir) == Deny("申请人不存在")
  {
  }

  /** A department head may act exactly on pending requests from their own department. */
  lemma LeaveDepartmentHeadRule(l: Leave, approver: User, dir: Directory)
    requires approver.role == DepartmentHead && l.userId in dir.users
    ensures CanApproveLeave(l, approver, dir).allowed
            <==> l.status == Pending && dir.users[l.userId].department == approver.department
  {
  }

  /** The three situations in which a VP may act on a leave request, and no others. */
  lemma LeaveVicePresidentRule(l: Leave, approver: User, dir: Directory)
    requires approver.role == VicePresident && l.userId in dir.users
    ensures CanApproveLeave(l, approver, dir).allowed
            <==> ((l.status == Pending && l.userId == approver.id && l.assignedVp == Some(approver.id))
                  || (l.status == Pending && dir.users[l.userId].role == VicePresident && l.assignedVp == Some(approver.id))
                  || (l.status == Pending && HeadsApplicantDept(dir, dir.users[l.userId], approver))
                  || (l.status == DeptApproved && EffectiveVp(l, dir.users[l.userId], dir) == Some(approver.id)))
  {
  }

  /** A GM may act on their own pending request, or on a `vp_approved` one manual to them or to nobody. */
  lemma LeaveGeneralManagerRule(l: Leave, approver: User, dir: Directory)
    requires approver.role == GeneralManager && l.userId in dir.users
    ensures CanApproveLeave(l, approver, dir).allowed
            <==> ((l.status == Pending && l.userId == approver.id)
                  || (l.status == VpApproved && (l.assignedGm.None? || l.assignedGm == Some(approver.id))))
  {
  }

  lemma LeaveOtherRoles(l: Leave, approver: User, dir: Directory)
    requires l.userId in dir.users
    ensures approver.role == Admin ==> CanApproveLeave(l, approver, dir) == Allow
    ensures approver.role == Employee ==> CanApproveLeave(l, approver, dir) == Deny("权限不足")
  {
  }

  /** Once a request is approved, rejected or cancelled, only an admin passes. */
  lemma LeaveFinishedRequests(l: Leave, approver: User, dir: Directory)
    requires l.status in {Approved, Rejected, Cancelled}
    ensures CanApproveLeave(l, approver, dir).allowed ==> approver.role == Admin
  {
  }

  /**
   * Lazy assignment is idempotent: after the first call has stored its
   * result, a second call writes nothing and decides the same way.
   */
  lemma LeaveAssignmentIdempotent(l: Leave, approver: User, approver2: User, dir: Directory)
    ensures var l1 := EnsureLeaveAssigned(l, approver, dir);
            EnsureLeaveAssigned(l1, approver, dir) == l1
            && CanApproveLeave(l1, approver, dir) == CanApproveLeave(l, approver, dir)
    ensures var l1 := EnsureLeaveAssigned(l, approver, dir);
            l1.assignedVp.Some? ==> EnsureLeaveAssigned(l1, approver2, dir) == l1
  {
  }

  // ---------------------------------------------------------------------
  // Authorisation of overtime.

  /** The approver id the authoriser writes back onto an overtime request (lines 312-318). */
  function OvertimeApproverToWrite(o: Overtime, approver: User, dir: Directory): (r: Option<Id>)
    ensures r.Some? ==> o.assignedApprover.None? && o.status == OvertimePending && approver.role == VicePresident
    ensures r.Some? ==> r.value in dir.users && dir.users[r.value].active
  {
    if approver.role == VicePresident && o.userId in dir.users && o.status == OvertimePending && o.assignedApprover.None? then
      ResolveOvertimeApprover(None, dir.users[o.userId], dir)
    else None
  }

  function EnsureOvertimeAssigned(o: Overtime, approver: User, dir: Directory): (r: Overtime)
    ensures r == o.(assignedApprover := r.assignedApprover)
    ensures o.assignedApprover.Some? ==> r == o
    ensures r.assignedApprover != o.assignedApprover ==> o.assignedApprover.None? && r.assignedApprover.Some?
  {
    match OvertimeApproverToWrite(o, approver, dir)
    case Some(v) => o.(assignedApprover := Some(v))
    case None => o
  }

  /** `can_approve_overtime` once any lazy assignment has been stored. */
  function AuthorizeOvertime(o: Overtime, approver: User, dir: Directory): Decision
  {
    if o.userId !in dir.users then Deny("申请人不存在")
    else if o.status != OvertimePending then Deny("该申请不在待审批状态")
    else
      var applicant := dir.users[o.userId];
      if approver.role == VicePresident && o.userId == approver.id && o.assignedApprover == Some(approver.id) then Allow
      else if approver.role == GeneralManager && o.userId == approver.id then Allow
      else
        match approver.role
        case DepartmentHead =>
          if applicant.department != approver.department then Deny("只能审批本部门员工的申请") else Allow
        case VicePresident =>
          if o.assignedApprover != Some(approver.id) then Deny("该申请未分配给您审批") else Allow
        case GeneralManager =>
          if o.assignedApprover.Some? && o.assignedApprover != Some(approver.id) then Deny("该申请未分配给您审批")
          else Allow
        case Admin => Allow
        case Employee => Deny("权限不足")
  }

  function CanApproveOvertime(o: Overtime, approver: User, dir: Directory): Decision
  {
    AuthorizeOvertime(EnsureOvertimeAssigned(o, approver, dir), approver, dir)
  }

  function EffectiveApprover(o: Overtime, applicant: User, dir: Directory): Option<Id>
  {
    if o.assignedApprover.Some? then o.assignedApprover else ResolveOvertimeApprover(None, applicant, dir)
  }

  lemma OvertimeReasons(o: Overtime, approver: User, dir: Directory)
    ensures CanApproveOvertime(o, approver, dir).allowed <==> CanApproveOvertime(o, approver, dir).reason == ""
  {
  }

  /** A request that is no longer pending is refused to every role, admin included. */
  lemma OvertimeOnlyPending(o: Overtime, approver: User, dir: Directory)
    requires o.userId in dir.users && o.status != OvertimePending
    ensures CanApproveOvertime(o, approver, dir) == Deny("该申请不在待审批状态")
  {
  }

  /** Who may act on a pending overtime request of an existing applicant. */
  lemma OvertimePendingRules(o: Overtime, approver: User, dir: Directory)
    requires o.userId in dir.users && o.status == OvertimePending
    ensures approver.role == DepartmentHead ==>
              (CanApproveOvertime(o, approver, dir).allowed <==> dir.users[o.userId].department == approver.department)
    ensures approver.role == VicePresident ==>
              (CanApproveOvertime(o, approver, dir).allowed <==> EffectiveApprover(o, dir.users[o.userId], dir) == Some(approver.id))
    ensures approver.role == GeneralManager ==>
              (CanApproveOvertime(o, approver, dir).allowed
               <==> o.userId == approver.id || o.assignedApprover.None? || o.assignedApprover == Some(approver.id))
    ensures approver.role == Admin ==> CanApproveOvertime(o, approver, dir).allowed
    ensures approver.role == Employee ==> CanApproveOvertime(o, approver, dir) == Deny("权限不足")
  {
  }

  lemma OvertimeAssignmentIdempotent(o: Overtime, approver: User, approver2: User, dir: Directory)
    ensures var o1 := EnsureOvertimeAssigned(o, approver, dir);
            EnsureOvertimeAssigned(o1, approver, dir) == o1
            && CanApproveOvertime(o1, approver, dir) == CanApproveOvertime(o, approver, dir)
    ensures var o1 := EnsureOvertimeAssigned(o, approver, dir);
            o1.assignedApprover.Some? ==> EnsureOvertimeAssigned(o1, approver2, dir) == o1
  {
  }
}
