/**
 * The persisted entities the approval workflow reads and writes
 * (backend/models.py): users with their roles, departments with their
 * heads, the VP-to-department supervision links, and the leave and
 * overtime requests with their stage slots.
 */
module Models {
  import opened Base
  import opened Calendar

  datatype Role = Employee | DepartmentHead | VicePresident | GeneralManager | Admin

  datatype User = User(id: Id, role: Role, department: Option<Id>, active: bool)

  datatype Department = Department(id: Id, head: Option<Id>)

  /** One row of `vice_president_departments`. */
  datatype SupervisionLink = SupervisionLink(vp: Id, department: Id, isDefault: bool)

  /** The three tables the assigner queries, keyed by primary key. */
  datatype Directory = Directory(
    users: map<Id, User>,
    departments: map<Id, Department>,
    links: map<Id, SupervisionLink>)

  /** `db.query(User).filter(User.id == id, User.role.in_(roles), User.is_active == True).first()` is not None. */
  predicate ActiveIn(dir: Directory, id: Id, roles: set<Role>)
  {
    id in dir.users && dir.users[id].role in roles && dir.users[id].active
  }

  /**
   * `db.query(User.department_id).filter(User.id == id).scalar()`: the
   * stored department, and None both for a user without one and for an
   * unknown id.
   */
  function DepartmentOf(users: map<Id, User>, id: Id): Option<Id>
  {
    if id in users then users[id].department else None
  }

  /** The ids of all active users with the given role. */
  function ActiveWithRole(dir: Directory, role: Role): set<Id>
  {
    set id | id in dir.users && dir.users[id].role == role && dir.users[id].active
  }

  datatype LeaveStatus = Pending | DeptApproved | VpApproved | Approved | Rejected | Cancelled

  datatype OvertimeStatus = OvertimePending | OvertimeApproved | OvertimeRejected | OvertimeCancelled

  /** One approval stage: `*_approver_id`, `*_approved_at`, `*_comment`. */
  datatype Stage = Stage(approver: Option<Id>, at: Option<Instant>, comment: Option<string>)

  const EmptyStage := Stage(None, None, None)

  /** A row of `leave_applications`; `days` is the stored float. */
  datatype Leave = Leave(
    id: Id,
    userId: Id,
    start: Instant,
    end: Instant,
    days: real,
    reason: string,
    status: LeaveStatus,
    leaveTypeId: Id,
    assignedVp: Option<Id>,
    assignedGm: Option<Id>,
    dept: Stage,
    vp: Stage,
    gm: Stage,
    createdAt: Instant)

  /** A row of `overtime_applications`. */
  datatype Overtime = Overtime(
    id: Id,
    userId: Id,
    start: Instant,
    end: Instant,
    hours: real,
    days: real,
    reason: string,
    kind: string,
    status: OvertimeStatus,
    assignedApprover: Option<Id>,
    approver: Option<Id>,
    approvedAt: Option<Instant>,
    comment: Option<string>,
    createdAt: Instant)
}
