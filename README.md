# Attendance: a verified model of the approval and attendance core

This project models the core of an attendance and leave-management system in Dafny.
The system has a Python back end and JavaScript clients.
Staff check in and out against a weekly attendance policy.
They apply for leave and overtime, and the requests pass through an approval chain: department head, vice president (VP), general manager (GM).
Administrators configure holidays and the VP-to-department supervision links.
The clients compute day counts, format date ranges, validate forms and lay out a daily overview.

The model covers these parts:

- **Approver resolution and authorisation** (`approval_assigner.py`): `assigner.dfy`.
- **Services and their tables:**
  - leave (`leave_service.dfy`) and overtime (`overtime_service.dfy`);
  - supervision links (`vp_department.dfy`);
  - check-in and check-out (`attendance_rules.dfy`, `attendance_service.dfy`);
  - holidays (`holidays.dfy`) and statistics (`statistics.dfy`).
- **Repository list queries:** `listing.dfy`, `leave_repository.dfy`, `overtime_repository.dfy`.
- **Utilities:**
  - the expiring cache (`cache.dfy`) and the rate limiter (`rate_limit.dfy`);
  - optimistic-lock versions (`optimistic_lock.dfy`) and the password-strength rule (`security.dfy`).
- **The two migration statement splitters:** `run_migration.dfy`, `migrate_attendance.dfy`.
- **The client helpers:**
  - the day calculators (`calculation_js.dfy`, `leave_js.dfy`) and the date formatters (`format_js.dfy`);
  - the form validators (`validation_js.dfy`) and the overview page (`overview_js.dfy`);
  - what `Date` makes of ISO strings (`jsdates.dfy`).
- **Shared vocabulary:** `base.dfy`, `text.dfy`, `calendar.dfy`, `models.dfy`.

**How the model is shaped:**

- Pure code is written as functions with contracts and lemmas.
- Code that updates objects in place is written as classes whose fields are the tables: `LeaveTable`, `OvertimeTable`, `SupervisionTable`, `AttendanceTable`, `HolidayTable`, the cache and the rate limiter's history.
  - Their methods are proved against pure transition functions.
- Loops are written as methods with invariants, proved against reference functions: the migration splitters, the holiday and workday walks, the client leave walk, the overview partition.

**Representations:**

- Users, departments and links are maps keyed by id.
- "First by id" is the least id of a set.
- The clock is a parameter.
- Instants are whole seconds; the cache uses microseconds.
- Client day counts are integer half-days and client clock times are minutes after midnight.
- Back-end leave and overtime day counts are `real`, as the stored floats are.

**Behaviour the code has and the model keeps as written:**

- **Approvals:**
  - A VP approving a request of at most one day writes `vp_approved`, so such a request still goes to a GM (`LeaveService.VicePresidentApproval`).
  - An administrator passes authorisation, but the approval writes nothing (`LeaveService.AdminApprovalIsNoOp`).
- **Pending lists:**
  - A VP's own pending request is authorised for them but is not in their pending list.
  - A department head without a department lists the pending requests of applicants without one, because `.scalar()` gives None and the filter becomes `IS NULL` (`LeaveRepository.DepartmentlessHeadListed`).
- **Workdays:** `is_workday` and `calculate_workdays` disagree on a holiday row of an unknown kind (`Statistics.UnknownKindDisagrees`).
- **Migrations:** the two splitters disagree on a `;` inside a quoted string (`AttendanceRefactorMigration.SplittersDisagreeOnQuotedSemicolon`).
- **Client calculations:**
  - The two client leave calculators disagree across days: two full days count 2 in `leave.js` and 3.5 in `calculation.js` (`LeaveClient.CalculatorsDisagreeAcrossDays`).
  - A space-separated `YYYY-MM-DD HH:mm` loses its clock in the date formatter (`DateFormat.SpaceSeparatedTimeIsLost`).
  - An unreadable date never fails the client date-range check (`Validation.UnreadableDatesPass`).
- **Rate limiter:** `/` is whitelisted by prefix, so every request passes unchecked and unrecorded (`RateLimit.RootWhitelistsEverything`).

Where the written description of the system and the code differ, the model follows the code.

## Model

| member | source | states |
|---|---|---|
| Base.Least | backend/approval_assigner.py:66-71 | the least id of a non-empty set: a member no larger than any other |
| Base.FirstId | backend/approval_assigner.py:66-71 | `order_by(id).first()`: none iff nothing matches, otherwise the smallest matching id |
| ApprovalAssigner.LinkedVp | backend/approval_assigner.py:41-63 | none exactly when the department has no link (default-only or any) to an active VP; otherwise an active VP who supervises it through such a link |
| ApprovalAssigner.DepartmentVp | backend/approval_assigner.py:39-63 | the supervision rule: none iff no department or no active linked VP; a default-linked VP is chosen whenever one exists, otherwise any linked VP |
| ApprovalAssigner.FirstActive | backend/approval_assigner.py:66-71 | the lowest id among active users of the role; none iff there is no such user |
| ApprovalAssigner.ResolveLeaveVp | backend/approval_assigner.py:11-71 | the manual VP is returned iff it names an active VP; otherwise the department's default-linked VP, then any linked VP, then the lowest-id active VP; the result is none iff no active VP exists |
| ApprovalAssigner.ResolveLeaveGm | backend/approval_assigner.py:74-105 | a valid active manual GM wins, otherwise the lowest-id active GM; none iff no active GM exists |
| ApprovalAssigner.ActiveHead | backend/approval_assigner.py:166-175 | the department's recorded head, exactly when the department, its head and that user exist and the user is active (role not checked) |
| ApprovalAssigner.ResolveOvertimeApprover | backend/approval_assigner.py:108-192 | priority chain: manual approver with role head/VP/GM and active; then the default-linked VP of the applicant's department, then any linked VP; then the active department head; then the lowest-id VP, else the lowest-id GM; none exactly when every rule misses |
| ApprovalAssigner.LeaveVpToWrite | backend/approval_assigner.py:248-254 | an id is written only for a VP acting on a `dept_approved` request whose `assigned_vp_id` is empty, and it is an active VP |
| ApprovalAssigner.EnsureLeaveAssigned | backend/approval_assigner.py:248-254 | the lazy step changes nothing but `assigned_vp_id`, never overwrites a stored id, and writes only an active VP |
| ApprovalAssigner.LeaveReasons | backend/approval_assigner.py:197-276 | a leave decision is allowed exactly when its reason is empty |
| ApprovalAssigner.AuthorizeLeave | backend/approval_assigner.py:197-276 | `can_approve_leave` on a request whose lazy VP write is already stored; its branches are stated by LeaveReasons, LeaveMissingApplicant, LeaveDepartmentHeadRule, LeaveVicePresidentRule, LeaveGeneralManagerRule, LeaveOtherRoles and LeaveFinishedRequests |
| ApprovalAssigner.CanApproveLeave | backend/approval_assigner.py:197-276 | `can_approve_leave` as run: EnsureLeaveAssigned, then AuthorizeLeave; the lemmas LeaveVicePresidentRule and LeaveAssignmentIdempotent state the combined decision |
| ApprovalAssigner.LeaveMissingApplicant | backend/approval_assigner.py:205-207 | a missing applicant is denied with "申请人不存在" |
| ApprovalAssigner.LeaveDepartmentHeadRule | backend/approval_assigner.py:220-226 | a department head is allowed iff the request is pending and the applicant is in the head's department |
| ApprovalAssigner.LeaveVicePresidentRule | backend/approval_assigner.py:209-259 | a VP is allowed iff: own pending request assigned to self; or a pending request of a VP applicant assigned to them; or a pending request from a department they head; or a `dept_approved` request whose stored or resolved VP is them |
| ApprovalAssigner.LeaveGeneralManagerRule | backend/approval_assigner.py:214-270 | a GM is allowed iff it is their own pending request, or the request is `vp_approved` and `assigned_gm_id` is unset or them |
| ApprovalAssigner.LeaveOtherRoles | backend/approval_assigner.py:272-276 | an admin is always allowed; an employee is denied with "权限不足" |
| ApprovalAssigner.LeaveFinishedRequests | backend/approval_assigner.py:197-276 | on an approved, rejected or cancelled request only an admin passes |
| ApprovalAssigner.LeaveAssignmentIdempotent | backend/approval_assigner.py:248-254 | after one lazy write a second call writes nothing and decides the same; once an id is stored no approver changes it |
| ApprovalAssigner.OvertimeApproverToWrite | backend/approval_assigner.py:312-318 | an id is written only for a VP acting on a pending request with no assigned approver, and it names an active user |
| ApprovalAssigner.EnsureOvertimeAssigned | backend/approval_assigner.py:312-318 | changes nothing but `assigned_approver_id`, never overwrites a stored id |
| ApprovalAssigner.OvertimeReasons | backend/approval_assigner.py:279-335 | an overtime decision is allowed exactly when its reason is empty |
| ApprovalAssigner.AuthorizeOvertime | backend/approval_assigner.py:279-335 | `can_approve_overtime` once the lazy write is stored; stated by OvertimeReasons, OvertimeOnlyPending and OvertimePendingRules |
| ApprovalAssigner.CanApproveOvertime | backend/approval_assigner.py:279-335 | `can_approve_overtime` as run: EnsureOvertimeAssigned, then AuthorizeOvertime; OvertimePendingRules and OvertimeAssignmentIdempotent state the decision |
| ApprovalAssigner.OvertimeOnlyPending | backend/approval_assigner.py:291-292 | a non-pending overtime request is denied to every role, admin included, with "该申请不在待审批状态" |
| ApprovalAssigner.OvertimePendingRules | backend/approval_assigner.py:295-335 | on a pending request: head iff same department; VP iff the stored or resolved approver is them; GM iff own request or assigned approver unset or them; admin always; employee denied with "权限不足" |
| ApprovalAssigner.OvertimeAssignmentIdempotent | backend/approval_assigner.py:312-318 | a second lazy write changes nothing and the decision is unchanged |
| LeaveService.RequiredLevels | backend/services/leave_service.py:29-36 | one level (department head) iff days <= 1, two (adding VP) iff 1 < days <= 3, all three beyond; always a prefix of head, VP, GM |
| LeaveService.RequiredLevelsMonotone | backend/services/leave_service.py:29-36 | more days never need fewer levels, and the shorter list is a prefix of the longer |
| LeaveService.CreateLeave | backend/services/leave_service.py:38-145 | end before start and an inactive leave type are the errors, in that order, plus a VP override that is not an active VP; a created request is pending, carries the inputs and has all three stage slots empty |
| LeaveService.CreateLeaveStaffAssignment | backend/services/leave_service.py:83-138 | for an employee or head the overrides are dropped; a VP is assigned iff days > 1 and an active VP exists (the resolved one), a GM iff days > 3 and an active GM exists |
| LeaveService.CreateLeaveVicePresidentAssignment | backend/services/leave_service.py:88-143 | a VP applicant gets themselves unless they named an active VP; above three days the GM override is replaced by resolution, otherwise kept |
| LeaveService.CreateLeaveGeneralManagerAssignment | backend/services/leave_service.py:108-111 | a GM applicant's GM slot defaults to themselves; the VP override is kept |
| LeaveService.ApproveFollowsAuthoriser | backend/services/leave_service.py:191-198 | approve_leave succeeds iff the authoriser allows; a refusal is PermissionDenied with the authoriser's non-empty reason |
| LeaveService.ApproveLeave | backend/services/leave_service.py:172-249 | `approve_leave`; stated by ApproveFollowsAuthoriser, ApproveMissing, DeniedApprovalWritesNoStage, DepartmentHeadApproval, VicePresidentApproval, GeneralManagerApproval, AdminApprovalIsNoOp and ApprovalPaths |
| LeaveService.ApproveMissing | backend/services/leave_service.py:187-189 | an unknown id gives NotFound and leaves the table unchanged |
| LeaveService.DeniedApprovalWritesNoStage | backend/services/leave_service.py:191-198 | a refused approval changes no other row, no status and no stage; only an empty `assigned_vp_id` may have been filled in by the authoriser |
| LeaveService.DepartmentHeadApproval | backend/services/leave_service.py:201-218 | a head's approval gives `approved` iff days <= 1, `dept_approved` iff days > 1, `rejected` iff refused, and writes only status and the department slot |
| LeaveService.VicePresidentApproval | backend/services/leave_service.py:219-236 | a VP's approval gives `approved` iff 1 < days <= 3 and `vp_approved` for the rest, a single day included; only status and the VP slot change |
| LeaveService.GeneralManagerApproval | backend/services/leave_service.py:237-247 | a GM sets `approved` or `rejected` and writes only the GM slot |
| LeaveService.AdminApprovalIsNoOp | backend/services/leave_service.py:191-249 | an admin passes on any request of an existing applicant, whatever its status, and nothing is written |
| LeaveService.ApprovalPaths | backend/services/leave_service.py:29-247 | along the happy path the number of approvals that ends a pending request equals the number of required levels |
| LeaveService.CancelLeave | backend/services/leave_service.py:251-265 | NotFound for an unknown id, PermissionDenied for a non-owner, ValidationException for approved or rejected; every other status, cancelled included, becomes cancelled with no other field changed |
| LeaveService.CancelIdempotent | backend/services/leave_service.py:251-265 | cancelling a cancelled request again succeeds with the same row |
| LeaveService.LeaveTable.constructor | backend/models.py:167-191 | an empty table whose first id is 1 |
| LeaveService.LeaveTable.Create | backend/services/leave_service.py:113-145 | returns CreateLeave for the next id; on success exactly that row is added and the next id advances, on error nothing changes |
| LeaveService.LeaveTable.Approve | backend/services/leave_service.py:171-249 | returns ApproveLeave and leaves the table as RowsAfterApprove says |
| LeaveService.LeaveTable.Cancel | backend/services/leave_service.py:251-265 | returns CancelLeave; on success only that row changes, on error nothing |
| OvertimeService.CreateOvertime | backend/services/overtime_service.py:25-102 | fails iff end < start or a VP names an approver who is not an active VP; a created request is pending, carries the inputs and has no decision recorded |
| OvertimeService.CreateOvertimeStaffApprover | backend/services/overtime_service.py:58-100 | for staff a supplied approver is stored unvalidated; otherwise the active department head, else the resolution chain; the approver stays empty iff there is no active head, no active VP and no active GM |
| OvertimeService.CreateOvertimeExecutiveApprover | backend/services/overtime_service.py:68-81 | a VP or GM applicant defaults to themselves; a VP's override is an active VP |
| OvertimeService.ApproveOvertimeOutcome | backend/services/overtime_service.py:129-167 | approval succeeds iff the authoriser allows (only on a pending request); a refusal carries the authoriser's reason; success sets approved or rejected, the approver, the time and the comment and nothing else but the lazily resolved approver |
| OvertimeService.ApproveOvertime | backend/services/overtime_service.py:129-167 | `approve_overtime`; stated by ApproveOvertimeOutcome and DeniedOvertimeWritesNothing |
| OvertimeService.DeniedOvertimeWritesNothing | backend/services/overtime_service.py:152-155 | a refusal changes no other row and no field of the request except an empty assigned approver |
| OvertimeService.HalfMultiples | backend/services/overtime_service.py:218-220 | the day counts accepted by the `% 0.5` check are exactly the halves k/2 |
| OvertimeService.Patched | backend/services/overtime_service.py:209-228 | an update never touches id, owner, status, assignment, decision or creation time |
| OvertimeService.UpdateOvertime | backend/services/overtime_service.py:170-233 | NotFound for an unknown id; succeeds iff the user is owner or admin, the request is pending or the user is admin, the new days are a half-multiple and the merged end is not before the merged start; the result is the patched request |
| OvertimeService.EmptyPatchIsIdentity | backend/services/overtime_service.py:209-228 | an empty update by the owner of a pending request returns it unchanged |
| OvertimeService.CancelOvertime | backend/services/overtime_service.py:236-251 | succeeds iff the request exists, belongs to the user and is neither approved nor rejected, and then only the status becomes cancelled; the two refusals carry their messages |
| OvertimeService.OvertimeTable.constructor | backend/models.py:203-220 | an empty table whose first id is 1 |
| OvertimeService.OvertimeTable.Create | backend/services/overtime_service.py:83-102 | returns CreateOvertime for the next id; on success exactly that row is added |
| OvertimeService.OvertimeTable.Approve | backend/services/overtime_service.py:129-167 | returns ApproveOvertime and leaves the table as RowsAfterApprove says |
| OvertimeService.OvertimeTable.Update | backend/services/overtime_service.py:170-233 | returns UpdateOvertime; on success only that row changes |
| OvertimeService.OvertimeTable.Cancel | backend/services/overtime_service.py:236-251 | returns CancelOvertime; on success only that row changes |
| Listing.Filter | backend/repositories/leave_repository.py:26-29 | keeps exactly the rows that pass the filter, in scan order |
| Listing.FilterMultiset | backend/repositories/leave_repository.py:26-29 | the filtered list holds each matching row as often as the table and no other row |
| Listing.Insert | backend/repositories/leave_repository.py:32 | inserting into a descending list keeps it descending and adds exactly the new element |
| Listing.SortDesc | backend/repositories/leave_repository.py:32 | `order_by(... desc)`: keys never increase and the result is a permutation of the input |
| Listing.Page | backend/repositories/leave_repository.py:33-34 | `offset(skip).limit(limit)`: the window of the sorted rows starting at `skip`, at most `limit` long |
| Listing.QueryContents | backend/repositories/leave_repository.py:26-36 | a list query returns only matching rows, in descending key order and at most `limit` of them; a large enough first page holds each matching row as often as the table |
| Listing.QueryComplete | backend/repositories/leave_repository.py:26-36 | a large enough first page lists every matching row |
| Listing.Count | frontend/mobile/src/leave.js:317-322 | a count of matching items never exceeds the number of items |
| Listing.CountAllOrNone | frontend/mobile/src/leave.js:317-322 | the count is the length iff every item matches, and zero iff none does |
| Listing.CountAppend | backend/services/statistics_service.py:44-67 | counting over a concatenation adds the two counts |
| Listing.Map | migrate_attendance_refactor.py:52 | a list comprehension maps each element in place |
| Listing.FilterAppend | run_migration.py:76-86 | filtering distributes over concatenation |
| Listing.FilterIdempotent | run_migration.py:76-86 | filtering twice by the same test changes nothing |
| Listing.FilterDisjoint | run_migration.py:76-86 | filtering by two exclusive tests in turn leaves nothing |
| LeaveRepository.OverlapsByDay | backend/repositories/leave_repository.py:100-105 | the datetime bounds 00:00 and 23:59:59.999999 amount to comparing calendar days |
| LeaveRepository.ByDateRange | backend/repositories/leave_repository.py:90-113 | a leave is listed iff it is the user's, its status is pending, dept_approved, vp_approved or approved, and its days overlap the range |
| LeaveRepository.PendingListsByRole | backend/repositories/leave_repository.py:38-88 | newest first, at most `limit`; the head list holds pending leaves whose applicant's department equals the one `.scalar()` reads for the approver (None included), the VP list `dept_approved` ones assigned to them, the GM list `vp_approved` ones assigned to them or to nobody; a large enough first page holds every such leave; for other roles it is every leave |
| LeaveRepository.PendingByApprover | backend/repositories/leave_repository.py:38-88 | `get_pending_by_approver`; stated by PendingListsByRole, ListedMeansAllowed, VicePresidentOwnRequestUnlisted, DepartmentlessHeadListed and UnknownHeadListsDepartmentless |
| LeaveRepository.ByUserContents | backend/repositories/leave_repository.py:18-36 | newest first, at most `limit`, exactly the user's leaves of the optional status when the page is large enough |
| LeaveRepository.ByUser | backend/repositories/leave_repository.py:18-36 | `get_by_user`; stated by ByUserContents |
| LeaveRepository.ListedMeansAllowed | backend/repositories/leave_repository.py:38-88 | every leave a pending list shows to an approver is one the authoriser lets them act on |
| LeaveRepository.VicePresidentOwnRequestUnlisted | backend/repositories/leave_repository.py:63-70 | a VP's own pending request assigned to themselves is authorised yet missing from their pending list |
| LeaveRepository.DepartmentlessHeadListed | backend/repositories/leave_repository.py:51-62 | a head without a department both lists and may approve the pending leaves of department-less applicants (`== None` renders `IS NULL`) |
| LeaveRepository.UnknownHeadListsDepartmentless | backend/repositories/leave_repository.py:51-62 | an approver id with no user row lists exactly the pending leaves of applicants without a department |
| OvertimeRepository.AllByDateRangeContents | backend/repositories/overtime_repository.py:91-122 | latest start first and newest first among equal starts; only rows ending on or after the first day, starting on or before the last day and of the user, each bound optional |
| OvertimeRepository.AllByDateRange | backend/repositories/overtime_repository.py:91-122 | `get_all_by_date_range`; stated by AllByDateRangeContents and AllByDateRangeUnbounded |
| OvertimeRepository.AllByDateRangeUnbounded | backend/repositories/overtime_repository.py:91-122 | without bounds the list is a permutation of every row |
| OvertimeRepository.PendingListsByRole | backend/repositories/overtime_repository.py:40-89 | every role's list except admin's and employees' holds pending requests only: for a head the applicant's department equals the one `.scalar()` reads for the approver (None included), assigned to the VP, assigned to the GM or nobody; a large enough first page holds every such request |
| OvertimeRepository.PendingByApprover | backend/repositories/overtime_repository.py:40-89 | `get_pending_by_approver`; stated by PendingListsByRole, ListedMeansAllowed, UnassignedHiddenFromVicePresident and DepartmentlessHeadListed |
| OvertimeRepository.ByUserContents | backend/repositories/overtime_repository.py:18-38 | newest first, exactly the user's requests of the optional status when the page is large enough |
| OvertimeRepository.ByUser | backend/repositories/overtime_repository.py:18-38 | `get_by_user`; stated by ByUserContents |
| OvertimeRepository.ListedMeansAllowed | backend/repositories/overtime_repository.py:40-89 | every listed request may be acted on by the approver who sees it |
| OvertimeRepository.UnassignedHiddenFromVicePresident | backend/repositories/overtime_repository.py:61-71 | an unassigned pending request is in no VP's list though the VP the resolution picks may approve it |
| OvertimeRepository.DepartmentlessHeadListed | backend/repositories/overtime_repository.py:52-63 | a head without a department both lists and may approve the pending requests of department-less applicants |
| VpDepartment.ClearedDefaults | backend/services/vp_department_service.py:133-173 | the same links with only the flag changed: every link of the department except the kept one is no longer default; links of other departments and the kept link are untouched |
| VpDepartment.CreateError | backend/services/vp_department_service.py:117-130 | creation passes iff the user exists and is a VP, the department exists and the pair is new; a missing or non-VP user is the first error, "指定的用户不是副总" |
| VpDepartment.CreateKeepsInvariants | backend/services/vp_department_service.py:133-144 | creating a new pair keeps at most one default per department and unique pairs; adds exactly the new id; other departments are untouched; a non-default link changes no other link, a default one clears every other default of its department |
| VpDepartment.UpdateKeepsInvariants | backend/services/vp_department_service.py:169-177 | an update keeps both invariants and every key, changes only flags and only in the link's department, sets the requested flag, and `is_default=false` touches no other link |
| VpDepartment.UnsetCanLeaveNoDefault | backend/services/vp_department_service.py:176-177 | unsetting the only default leaves its department with no default link |
| VpDepartment.SupervisionTable.constructor | backend/models.py:248-266 | an empty link table whose first id is 1 |
| VpDepartment.SupervisionTable.ClearDefaults | backend/services/vp_department_service.py:134-137 | the loop leaves the links as ClearedDefaults says |
| VpDepartment.SupervisionTable.Create | backend/services/vp_department_service.py:109-155 | on a failed check returns that error and changes nothing; otherwise stores the link under the next id as AfterCreate says |
| VpDepartment.SupervisionTable.Update | backend/services/vp_department_service.py:157-192 | NotFound for a missing id with nothing changed; otherwise the links become AfterUpdate and the updated link is returned |
| VpDepartment.SupervisionTable.Delete | backend/services/vp_department_service.py:194-201 | NotFound for a missing id; otherwise exactly that link is removed |
| OptimisticLock.CheckVersion | backend/utils/optimistic_lock.py:57-75 | raises iff the entity has a version and it differs from the expected one, with a message naming both versions; an entity without the column always passes |
| OptimisticLock.Incremented | backend/utils/optimistic_lock.py:78-88 | a present version goes up by one; an absent one stays absent |
| OptimisticLock.IncrementInvalidatesOldVersion | backend/utils/optimistic_lock.py:57-88 | after an increment the version read before it fails the check and the new one passes; without the column every check passes |
| OptimisticLock.StaleAfterIncrements | backend/utils/optimistic_lock.py:57-88 | k >= 1 increments add k and make an old read fail the check |
| OptimisticLock.Entity.constructor | backend/utils/optimistic_lock.py:24-25 | an entity holding the given version column (or none) |
| OptimisticLock.Entity.Check | backend/utils/optimistic_lock.py:57-75 | returns CheckVersion of the entity's version and changes nothing |
| OptimisticLock.Entity.Increment | backend/utils/optimistic_lock.py:78-88 | the version becomes Incremented of the old one |
| Security.ValidatePasswordStrength | backend/security.py:33-58 | valid iff at least 8 characters with an ASCII upper-case letter, an ASCII lower-case letter and an ASCII digit, and then with an empty message; otherwise the message of the first check in source order that fails |
| Security.FailureIsGenuine | backend/security.py:46-56 | each message names a requirement the password really misses; the length message appears iff the password is too short |
| Security.LengthBoundary | backend/security.py:46-47 | every password shorter than eight characters is refused with the length message; every one of eight or more with all three classes passes with an empty message; `Abcdef1` and `Abcdefg1` fall on the two sides |
| RateLimit.ClientIp | backend/middleware/rate_limit.py:47-60 | the stripped first comma-separated field of a non-empty X-Forwarded-For (it holds no comma); else a non-empty X-Real-IP; else the peer host; else "unknown" |
| RateLimit.Cleaned | backend/middleware/rate_limit.py:62-76 | only the address's samples newer than an hour remain, and the address is forgotten when none does; other addresses are untouched |
| RateLimit.CleaningKeepsWindowSums | backend/middleware/rate_limit.py:62-105 | dropping samples older than the hour leaves every minute and hour sum unchanged |
| RateLimit.Verdict | backend/middleware/rate_limit.py:78-105 | allowed iff the last minute's count is below the minute limit and the last hour's below the hour limit; an allowed verdict has an empty message, and a refusal names the minute limit first, otherwise the hour limit |
| RateLimit.Touched | backend/middleware/rate_limit.py:89-91 | reading a missing address through the defaultdict stores an empty history for it and changes nothing else |
| RateLimit.VerdictIgnoresCleaning | backend/middleware/rate_limit.py:78-105 | cleaning before judging gives the verdict the raw history gives |
| RateLimit.RootWhitelistsEverything | backend/middleware/rate_limit.py:39-111 | "/" is on the list, so every path starting with "/" bypasses the limiter |
| RateLimit.RateLimiter.constructor | backend/middleware/rate_limit.py:22-45 | the given limits and an empty history |
| RateLimit.RateLimiter.CleanOldRequests | backend/middleware/rate_limit.py:62-76 | the history becomes Cleaned of the old one |
| RateLimit.RateLimiter.CheckRateLimit | backend/middleware/rate_limit.py:78-105 | returns the Verdict on the cleaned history and leaves the cleaned history with the address present |
| RateLimit.RateLimiter.Dispatch | backend/middleware/rate_limit.py:107-137 | a whitelisted path passes with nothing recorded; otherwise a refusal keeps the checked history and answers 429 with the verdict's message, and an allowed request appends one sample at `now` |
| Caching.NewEntry | backend/utils/cache.py:62-69 | stores the value; an expiry is set iff the lifetime is truthy (present and non-zero), at now plus that many seconds |
| Caching.Lookup | backend/utils/cache.py:47-60 | a returned value comes from a present entry that has not expired |
| Caching.AfterRead | backend/utils/cache.py:55-58 | a read removes the read key's entry exactly when it has expired and changes nothing else |
| Caching.Live | backend/utils/cache.py:94-107 | exactly the entries not yet expired, unchanged |
| Caching.Lifetime | backend/utils/cache.py:135-154 | a truthy `expire_days` replaces the seconds by that many days; otherwise the seconds are kept |
| Caching.SetThenGet | backend/utils/cache.py:47-69 | a value stored without a lifetime reads back at any later instant |
| Caching.ExpiryWindow | backend/utils/cache.py:47-69 | a value stored with a lifetime reads back up to and including its expiry instant, and after it reads as None and is removed |
| Caching.OtherKeysUnaffected | backend/utils/cache.py:62-74 | storing or deleting one key leaves what every other key reads unchanged |
| Caching.MemoryCacheBackend.constructor | backend/utils/cache.py:44-45 | an empty table |
| Caching.MemoryCacheBackend.Get | backend/utils/cache.py:47-60 | returns Lookup and leaves the table as AfterRead says |
| Caching.MemoryCacheBackend.Set | backend/utils/cache.py:62-69 | replaces the key's entry by NewEntry, nothing else |
| Caching.MemoryCacheBackend.Delete | backend/utils/cache.py:71-74 | removes the key only; an absent key changes nothing |
| Caching.MemoryCacheBackend.Clear | backend/utils/cache.py:76-78 | the table becomes empty |
| Caching.MemoryCacheBackend.Exists | backend/utils/cache.py:80-92 | true iff the key is present and live; an expired entry under it is dropped |
| Caching.MemoryCacheBackend.ClearExpired | backend/utils/cache.py:94-107 | only the live entries remain, and the count returned is the number of expired keys |
| Caching.MemoryCacheBackend.CollectExpired | backend/utils/cache.py:96-102 | lists every expired key once and nothing else |
| Caching.MemoryCacheBackend.DeleteKeys | backend/utils/cache.py:104-105 | removes exactly the listed keys |
| Caching.Cache.constructor | backend/utils/cache.py:122-129 | a fresh, empty memory backend |
| Caching.Cache.Set | backend/utils/cache.py:135-154 | stores the entry with the lifetime that Lifetime picks |
| Caching.Cache.GetOrSet | backend/utils/cache.py:168-193 | a cached value other than None is returned (after the read's expiry drop); otherwise the computed value is stored with its lifetime and returned |
| AttendanceRules.WeekdayOf | backend/services/attendance_service.py:39 | `weekday()` of an instant, always 0..6 |
| AttendanceRules.WeekdayOfOrdinal | backend/services/attendance_service.py:39 | every instant of a date has that date's weekday, Monday being 0 |
| AttendanceRules.Key | backend/services/attendance_service.py:55-56 | `str(weekday)` is the one digit naming the weekday |
| AttendanceRules.PolicyForDate | backend/services/attendance_service.py:27-61 | the defaults apply unless the weekly rules parse and name the instant's weekday; each key the day's entry names then replaces the default and every other key keeps it (the router copy at backend/routers/attendance.py:22-58 is the same code) |
| AttendanceRules.EmptyDayRule | backend/services/attendance_service.py:57 | an entry naming no key changes nothing |
| AttendanceRules.RulesPerDay | backend/services/attendance_service.py:41-61 | every instant of one day follows the same rules |
| AttendanceRules.LateDeadline | backend/services/attendance_service.py:75-78 | the deadline is a time of day: start plus threshold wraps at midnight |
| AttendanceRules.EarlyDeadline | backend/services/attendance_service.py:88-91 | end minus threshold wraps at midnight |
| AttendanceRules.LateIff | backend/services/attendance_service.py:69-80 | when start plus threshold stays within the day, late iff the check-in is strictly after that minute |
| AttendanceRules.IsLate | backend/services/attendance_service.py:69-80 | `is_late`; stated by LateDeadline, LateIff and LateBoundaries |
| AttendanceRules.EarlyIff | backend/services/attendance_service.py:82-93 | when end minus threshold stays within the day, early iff the check-out is strictly before that minute |
| AttendanceRules.IsEarlyLeave | backend/services/attendance_service.py:82-93 | `is_early_leave`; stated by EarlyDeadline, EarlyIff and EarlyBoundaries |
| AttendanceRules.LateBoundaries | backend/test_attendance_policy.py:121-126 | a minute before the start, the start and start plus threshold are on time; one minute later is late |
| AttendanceRules.EarlyBoundaries | backend/test_attendance_policy.py:166-171 | threshold plus one minutes before the end is early; end minus threshold, the end and one minute after are not |
| AttendanceRules.Contribution | backend/services/attendance_service.py:121-172 | what one request marks on the day; a full day always marks both halves |
| AttendanceRules.ClassificationRules | backend/services/attendance_service.py:130-149 | in order: a half-day starting 09:00 on the day is a morning; a start at 14:00 on the day an afternoon; a request of a day or more ending 12:00 on the day a morning; a day strictly inside the span a full day |
| AttendanceRules.RelevantMarksAHalf | backend/services/attendance_service.py:112-172 | every live request that overlaps the day marks at least one half of it |
| AttendanceRules.Marks | backend/services/attendance_service.py:121-172 | the combined flags: each is set iff some request sets it; full day implies both halves |
| AttendanceRules.LeavePeriodFacts | backend/services/attendance_service.py:95-177 | without an overlapping request that is neither rejected nor cancelled all four flags are false; otherwise has_leave holds and some half is marked; each half is marked iff some request marks it; full day iff morning and afternoon |
| AttendanceRules.LeavePeriodFor | backend/services/attendance_service.py:95-177 | `get_leave_period_for_date`; stated by LeavePeriodFacts, Marks and RelevantMarksAHalf, and computed by the loop of ComputeLeavePeriod |
| AttendanceRules.ComputeLeavePeriod | backend/services/attendance_service.py:119-177 | the loop over the query's rows yields LeavePeriodFor |
| AttendanceService.PunchOf | backend/services/attendance_service.py:263-268 | the punch time and coordinates are kept, and the place is the address when it is non-empty, otherwise the location text |
| AttendanceService.ServiceCheckin | backend/services/attendance_service.py:180-289 | errors in order: a stored check-in is a Conflict; no active policy NotFound; a full-day leave and a morning leave after 14:10 are refused; without a morning leave the window is checked; success iff none applies; the record gets the punch, the status and late = no morning leave and is_late, and keeps an existing record's owner, day and check-out |
| AttendanceService.CheckinHalfDayStatus | backend/services/attendance_service.py:250-287 | before 14:10 the morning status becomes `leave` after a morning leave, else the given status, and the afternoon is untouched; from 14:10 only the afternoon status is set; an existing record keeps its stored status when the given one is empty, while a new record stores it as given, empty included; a morning leave is never late |
| AttendanceService.CheckinWindowChecked | backend/services/attendance_service.py:235-243 | without a morning leave a check-in outside the day's window fails with the window message |
| AttendanceService.ServiceCheckout | backend/services/attendance_service.py:292-374 | no record NotFound, checked out Conflict, no policy NotFound, full-day leave refused, then the window; success iff none applies; the record gains the punch, early = no afternoon leave and is_early_leave, and the afternoon status becomes `normal` unless an afternoon leave |
| AttendanceService.CheckoutAfternoonLeave | backend/services/attendance_service.py:350-372 | after an afternoon leave a check-out is never early and keeps the afternoon status, the check-in and the morning status |
| AttendanceService.RouterCheckin | backend/routers/attendance.py:98-167 | a second check-in is a 400; the window is checked only under a policy; without one nobody is late; only check-in fields and lateness change |
| AttendanceService.RouterCheckout | backend/routers/attendance.py:171-236 | no record or a stored check-out is a 400; the window only under a policy; only the check-out punch and the early flag change |
| AttendanceService.TodayRecord | backend/repositories/attendance_repository.py:18-29 | the lowest-id record of the user dated that day, none iff there is no such record |
| AttendanceService.AttendanceTable.constructor | backend/models.py:110-134 | an empty attendance table |
| AttendanceService.AttendanceTable.Store | backend/services/attendance_service.py:263-289 | a success replaces today's record or adds one under the next id; a failure changes nothing |
| AttendanceService.AttendanceTable.Checkin | backend/services/attendance_service.py:180-289 | returns ServiceCheckin on today's record and today's leave period and stores it |
| AttendanceService.AttendanceTable.Checkout | backend/services/attendance_service.py:292-374 | returns ServiceCheckout on today's record and stores it |
| AttendanceService.AttendanceTable.CheckinByRouter | backend/routers/attendance.py:98-167 | returns RouterCheckin on today's record and stores it |
| AttendanceService.AttendanceTable.CheckoutByRouter | backend/routers/attendance.py:171-236 | returns RouterCheckout on today's record and stores it |
| AttendanceService.SecondCheckinFails | backend/services/attendance_service.py:212-215 | once a check-in is stored, another one the same day finds it and fails in the service and in the router |
| Calendar.DaysInMonth | backend/services/holiday_service.py:66 | a month has 28 to 31 days, and 29 exactly for February of a leap year |
| Calendar.Weekday | backend/services/holiday_service.py:98 | `weekday()` is 0..6 |
| Calendar.YearLength | backend/services/statistics_service.py:67 | a year spans 366 days if it is a leap year and 365 otherwise |
| Calendar.NextDayOrdinal | backend/services/statistics_service.py:67 | `+ timedelta(days=1)` before 9999-12-31 gives a valid date one ordinal later |
| Calendar.OrdinalOrder | backend/services/statistics_service.py:52 | comparing dates field by field is comparing their ordinals |
| Calendar.ParseYmd | backend/services/holiday_service.py:66 | `strptime(s, "%Y-%m-%d")` succeeds only with a valid date |
| Calendar.ParseIsoFormat | backend/services/holiday_service.py:173-194 | `strptime` reads back every date that `isoformat()` writes |
| Calendar.IsoLayout | backend/services/holiday_service.py:194 | `isoformat()` writes four year digits worth the year, a dash, two month digits, a dash, two day digits |
| Calendar.NatToStringValue | backend/services/holiday_service.py:194 | the decimal rendering of n is digits worth n |
| Calendar.PaddedValue | backend/services/holiday_service.py:194 | zero-padding keeps the decimal value |
| Calendar.TimeOf | backend/services/attendance_service.py:72 | `.time()` of an instant lies within the day |
| Calendar.AtParts | backend/services/attendance_service.py:109-110 | an instant built from a day and a second of that day has that day and that time of day |
| Text.StripStart | frontend/mobile/js/utils/validation.js:68 | drops a leading run and leaves no leading whitespace |
| Text.StripStartDropsSpace | frontend/mobile/js/utils/validation.js:68 | what is dropped at the start is whitespace only |
| Text.StripEnd | frontend/mobile/js/utils/validation.js:68 | drops a trailing run and leaves no trailing whitespace |
| Text.StripEndDropsSpace | frontend/mobile/js/utils/validation.js:68 | what is dropped at the end is whitespace only |
| Text.Strip | migrate_attendance_refactor.py:43 | `strip()` / `trim()` never lengthens and leaves no whitespace at either end |
| Text.StripEmpty | migrate_attendance_refactor.py:45 | stripping leaves nothing iff the text is all whitespace |
| Text.StripIsSlice | backend/middleware/rate_limit.py:52 | a stripped string holds only characters of the original |
| Text.StripUnchanged | run_migration.py:63 | text without whitespace at either end is already stripped |
| Text.StripKeepsLast | run_migration.py:63 | stripping keeps a last character that is not whitespace |
| Text.FindChar | frontend/mobile/js/utils/format.js:12-22 | the first occurrence of the character, or the length when there is none |
| Text.Before | frontend/mobile/src/leave.js:195-196 | `s.split(c)[0]`: a prefix without `c`, the whole string iff `c` does not occur |
| Text.Split | backend/middleware/rate_limit.py:52 | `split(c)`: at least one piece, none holding `c`, joining them gives back the text, one piece iff `c` does not occur, the first piece is the text before the first `c` |
| Text.SplitOfJoin | migrate_attendance_refactor.py:49-52 | splitting undoes joining when no part holds the separator |
| Text.FindCharAfter | frontend/mobile/js/utils/format.js:12-22 | the first separator after a separator-free prefix is at the prefix's length |
| Text.SplitAfter | frontend/mobile/js/utils/calculation.js:163-166 | a separator-free prefix before the separator is the first piece |
| Text.FindSpace | migrate_attendance_refactor.py:66 | the first whitespace character, or the length when there is none |
| Text.WordsAreWords | migrate_attendance_refactor.py:66 | every token of `split()` is non-empty and holds no whitespace |
| Text.WordsEmpty | migrate_attendance_refactor.py:66 | `split()` gives no tokens iff the text is all whitespace |
| Text.Upper | run_migration.py:77 | `upper()` maps each ASCII lower-case letter to its capital and keeps every other character, in place |
| Text.NatToString | frontend/mobile/js/utils/format.js:27-66 | decimal digits with no leading zero except for 0 itself |
| Text.PadStart | frontend/mobile/js/utils/format.js:27-66 | `padStart`: the string at the end, prefixed by the fill character up to the width |
| Holidays.ByDate | backend/services/holiday_service.py:21-23 | the row stored under exactly this date text, none iff no row has it |
| Holidays.CheckWorkday | backend/services/holiday_service.py:62-113 | fails iff `strptime` rejects the text, with the format message; an answer echoes the date text |
| Holidays.WorkdayRules | backend/services/holiday_service.py:71-113 | a configured holiday or company holiday is a day off and a make-up workday a workday, each with its name; without a recognised configuration a workday iff Monday to Friday, with no name, and the reason "周末" iff a day off |
| Holidays.CreateHoliday | backend/services/holiday_service.py:116-154 | a non-admin caller is refused first; created iff the caller may, the date parses, it is not yet configured and the type is one of the three; a parsed duplicate is a Conflict naming the date, before the type is checked; the new row holds the inputs |
| Holidays.AddKeepsUnique | backend/models.py:235-245 | adding a row for an unconfigured date keeps the dates unique |
| Holidays.Range | backend/services/holiday_service.py:191-209 | the walk visits start, start + 1 day, ..., end: consecutive ordinals, empty when start is after end |
| Holidays.Taken | backend/services/holiday_service.py:194-202 | at most one entry per walked date, each a text `get_by_date` finds |
| Holidays.ToCreate | backend/services/holiday_service.py:194-207 | at most one new row per walked date |
| Holidays.TakenEmpty | backend/services/holiday_service.py:211-213 | nothing is taken iff every date of the walk is free |
| Holidays.ToCreateAllFree | backend/services/holiday_service.py:203-207 | when every date is free, one new row per date in order, under its ISO text |
| Holidays.AddAll | backend/services/holiday_service.py:216-220 | the batch's rows stored under consecutive ids, the old rows unchanged |
| Holidays.RangeCons | backend/services/holiday_service.py:209 | a non-empty walk is its first date followed by the walk from the next day |
| Holidays.WalkStep | backend/services/holiday_service.py:193-209 | one step of the walk sends the current date to the taken or the new side and leaves the rest of the range |
| Holidays.IsoInjective | backend/services/holiday_service.py:194 | two dates with the same ISO text are equal |
| Holidays.OrdinalInjective | backend/services/holiday_service.py:193-209 | two valid dates with the same ordinal are equal |
| Holidays.BatchAllOrNothing | backend/services/holiday_service.py:157-223 | the batch fails with a Conflict iff some date of the inclusive range is configured, and otherwise yields one row per day in date order |
| Holidays.BatchResult | backend/services/holiday_service.py:157-223 | `create_holidays_batch`; the happy path is stated by BatchAllOrNothing and BatchKeepsUnique, and the table method CreateBatch returns it |
| Holidays.BatchKeepsUnique | backend/services/holiday_service.py:216-220 | storing a successful batch keeps every date stored once |
| Holidays.AddAllUnique | backend/services/holiday_service.py:216-220 | storing rows with fresh, distinct dates keeps the dates unique |
| Holidays.UpdateHoliday | backend/services/holiday_service.py:226-254 | non-admin refused, unknown id NotFound, a given type must be one of the three; the date is kept and each given field replaces the stored one |
| Holidays.EmptyUpdateIsIdentity | backend/services/holiday_service.py:226-254 | an update naming no field changes nothing |
| Holidays.HolidayTable.constructor | backend/models.py:235-245 | an empty holiday table |
| Holidays.HolidayTable.Create | backend/services/holiday_service.py:116-154 | returns CreateHoliday and adds exactly that row on success |
| Holidays.HolidayTable.CreateBatch | backend/services/holiday_service.py:157-223 | returns BatchResult; success stores all the rows under consecutive ids, failure stores none |
| Holidays.HolidayTable.Walk | backend/services/holiday_service.py:191-209 | the loop yields exactly Taken and ToCreate of the range |
| Holidays.HolidayTable.InsertAll | backend/services/holiday_service.py:216-220 | stores the rows under consecutive ids as AddAll says |
| Holidays.HolidayTable.Update | backend/services/holiday_service.py:226-254 | returns UpdateHoliday and replaces that row on success only |
| Statistics.KindOn | backend/services/statistics_service.py:47-60 | a kind is found for a date iff a row is stored under its ISO text |
| Statistics.CalculateWorkdays | backend/services/statistics_service.py:33-69 | the loop's count is the number of counted days of the inclusive range, zero when start is after end |
| Statistics.CountInStep | backend/services/statistics_service.py:52-67 | one loop step adds one for a counted day and moves to the next day |
| Statistics.SingleDayAgreement | backend/services/statistics_service.py:33-83 | for the three known kinds a one-day range counts one workday iff `is_workday` holds |
| Statistics.CountedIsWorkday | backend/services/statistics_service.py:55-83 | for the known kinds the two day tests agree |
| Statistics.OneDayCount | backend/services/statistics_service.py:52-67 | a one-day range counts one iff that day is counted |
| Statistics.UnknownKindDisagrees | backend/services/statistics_service.py:55-83 | a weekday configured with an unknown kind counts zero in `calculate_workdays` but is a workday for `is_workday` |
| Statistics.IsWorkdayAgreesWithCheck | backend/services/statistics_service.py:71-83 | `is_workday` of a date equals the answer of `check_workday` on its ISO text |
| Statistics.IsWorkday | backend/services/statistics_service.py:71-83 | `is_workday`; stated by IsWorkdayAgreesWithCheck, CountedIsWorkday, SingleDayAgreement and UnknownKindDisagrees |
| Statistics.AnswerOfParsed | backend/services/holiday_service.py:62-113 | the answer of `check_workday` for any text read as a date follows that text's configuration, and the weekday otherwise |
| Statistics.WeekdayName | backend/services/statistics_service.py:85-88 | a one-character name, "六" iff Saturday and "日" iff Sunday |
| Statistics.Trunc | backend/services/statistics_service.py:194 | `int()` truncates toward zero |
| Statistics.AbsenceDays | backend/services/statistics_service.py:401-411 | never negative, at least the formula, and equal to it when positive |
| Statistics.AbsenceTruncatesLeave | backend/services/statistics_service.py:401 | half a day of leave does not reduce absence; a day and a half reduces it by one |
| Statistics.AbsenceZero | backend/services/statistics_service.py:401-411 | no absence iff present days plus whole leave days reach the workdays |
| Statistics.SplitCount | backend/services/statistics_service.py:389-390 | two disjoint filters of the overtime rows keep no more than the rows |
| Statistics.MyStatisticsFacts | backend/services/statistics_service.py:318-420 | an explicit `False` gives all zeros; otherwise the workday count of the range, late and early days among the present days, absence by the formula, active plus passive overtime counts the approved requests of the range, and the present days are the user's records of the range |
| Statistics.MyStatistics | backend/services/statistics_service.py:318-420 | `get_my_statistics`; its counters are stated by MyStatisticsFacts |
| Statistics.Scope | backend/services/statistics_service.py:607-625 | refused iff the caller's role is not a viewer role; otherwise exactly the non-`admin`, attendance-enabled (and active when asked) users of the requested department, a department head only their own |
| Statistics.BeforeTenPastTwoIsDeadline | backend/services/statistics_service.py:673 | the hour-and-minute test is the check-in's 14:10 afternoon deadline |
| Statistics.MorningStatus | backend/services/statistics_service.py:664-678 | the morning status is never empty |
| Statistics.AfternoonStatus | backend/services/statistics_service.py:680-690 | the afternoon status is never empty |
| Statistics.DailyStatusPriority | backend/services/statistics_service.py:664-690 | a full-day leave wins over anything stored; a stored morning status wins when there is no leave; no record and no leave is absent on both halves; an absent morning without a stored status means no check-in before 14:10 |
| Statistics.MorningCheckinReported | backend/services/statistics_service.py:664-678 | a morning check-in stored by the attendance service with no leave is reported with its stored status |
| Statistics.LastRecord | backend/services/statistics_service.py:645-649 | the record kept for a key is one of the user's records of that day, none iff there is none |
| Statistics.BuildIndex | backend/services/statistics_service.py:645-649 | the dictionary holds a key iff some record has it, mapped to the last such record |
| Statistics.WorkdaysAmong | backend/services/statistics_service.py:629-634 | every listed day is a valid date |
| Statistics.WorkdaysAmongMembers | backend/services/statistics_service.py:629-634 | exactly the workdays of the walk are listed |
| Statistics.WorkdaysOf | backend/services/statistics_service.py:629-634 | every listed day is a valid date |
| Statistics.WorkdaysOfRange | backend/services/statistics_service.py:629-634 | a date is listed iff it is a workday within the inclusive range |
| Statistics.WorkdaysStep | backend/services/statistics_service.py:631-634 | one step of the walk lists the current day iff it is a workday, then the workdays of the rest |
| Statistics.Workdays | backend/services/statistics_service.py:629-634 | the loop collects WorkdaysOf the range |
| Statistics.ItemsFor | backend/services/statistics_service.py:657-698 | one item per workday, in order, each that day's item |
| Statistics.Reports | backend/services/statistics_service.py:654-706 | one report per listed user, in query order, each carrying that user's id |
| Statistics.DailyStatistics | backend/services/statistics_service.py:598-712 | refused iff the caller's role is not a viewer role |
| Statistics.ReportsFollowUsers | backend/services/statistics_service.py:654-706 | report `i` is user `i`'s with one row per workday, and every user has a report |
| Statistics.DailyStatisticsShape | backend/services/statistics_service.py:598-712 | for a viewer: every row names a listed user and holds one item per workday of the range, and every listed user has a row |
| Statistics.DailyStatisticsOfScope | backend/services/statistics_service.py:598-712 | for a viewer the result is the reports of the scoped users over the workdays of the range |
| Statistics.RowsOfListed | backend/services/statistics_service.py:654-706 | rows following the listed users one for one name the listed users and no one else |
| Statistics.ComputeDailyStatistics | backend/services/statistics_service.py:598-712 | the nested loops compute DailyStatistics |
| Statistics.AllReports | backend/services/statistics_service.py:654-706 | the outer loop computes Reports of the users |
| Statistics.UserReport | backend/services/statistics_service.py:654-706 | one user's report is ReportOf that user |
| Statistics.UserItems | backend/services/statistics_service.py:657-698 | the inner loop computes ItemsFor the workdays |
| RunMigration.SplitSql | run_migration.py:48-69 | the character loop collects SplitStatements of the text |
| RunMigration.SplitStatements | run_migration.py:48-69 | the statements `split_sql` collects; computed by the loop of SplitSql and stated by StatementsWellFormed, StepEmits, QuotedSemicolonKept and TrailingTextDiscarded |
| RunMigration.RunSnoc | run_migration.py:54-69 | reading one more character is one more loop step |
| RunMigration.ScannedSnoc | run_migration.py:54-69 | the scan of a text plus a character is one step after the scan of the text |
| RunMigration.RunAppend | run_migration.py:54-69 | reading `a` then `b` leaves the loop where reading `a + b` does |
| RunMigration.StepEmits | run_migration.py:55-69 | a character adds a statement iff it is a `;` outside a string and the stripped piece is kept, and then exactly that piece; a `;` never changes the quote state, and outside a string it starts a new piece |
| RunMigration.OtherQuoteInsideString | run_migration.py:55-61 | inside a string a quote of the other kind leaves the string open |
| RunMigration.EscapedQuoteDoesNotToggle | run_migration.py:55 | a quote after a backslash changes no quote state |
| RunMigration.OpenQuote | run_migration.py:55-58 | outside a string a counting quote opens a string of its kind |
| RunMigration.CloseQuote | run_migration.py:59-61 | inside a string the matching counting quote closes it |
| RunMigration.SemicolonOutside | run_migration.py:65-69 | outside a string a `;` strips the piece, keeps it unless empty or a comment, and empties the current piece |
| RunMigration.SemicolonInside | run_migration.py:63-65 | inside a string a `;` is only appended |
| RunMigration.AllWellFormedSnoc | run_migration.py:68 | appending a well-formed statement keeps every statement well formed |
| RunMigration.StepKeepsWellFormed | run_migration.py:63-69 | one character keeps every collected statement non-empty, stripped, not a comment and ending in `;` |
| RunMigration.StatementsWellFormed | run_migration.py:48-69 | every collected statement is non-empty, stripped, not a comment and ends in `;` |
| RunMigration.TrailingTextDiscarded | run_migration.py:54-69 | text after the last `;` never becomes a statement |
| RunMigration.PlainStep | run_migration.py:54-69 | a character that is neither a quote nor `;` is only appended |
| RunMigration.RunPlain | run_migration.py:54-69 | text without quotes, `;` or backslashes is carried whole into the current piece |
| RunMigration.DashesPlain | run_migration.py:67 | `--` followed by plain text is plain |
| RunMigration.CommentSwallowsStatement | run_migration.py:65-69 | a `--` comment glued to the statement after it is dropped together with that statement |
| RunMigration.CommentPieceDropped | run_migration.py:66-67 | a piece starting with `--` is dropped at its `;` |
| RunMigration.RunInString | run_migration.py:54-69 | inside a string, text without quotes or backslashes, `;` included, is carried whole |
| RunMigration.QuotedSemicolonKept | run_migration.py:48-69 | a statement made of one quoted string with semicolons in it comes out whole |
| RunMigration.QuotedFrom | run_migration.py:54-69 | from a boundary, a quoted string followed by `;` is emitted as one statement and leaves a boundary |
| RunMigration.StripTextAndKept | run_migration.py:66-67 | a piece that opens with a quote and ends with `;` is already stripped and is kept |
| RunMigration.Group | run_migration.py:76-83 | group 0 iff the upper-cased text holds CREATE TABLE, group 2 iff it holds CREATE INDEX and not CREATE TABLE |
| RunMigration.Reorder | run_migration.py:71-86 | the partition loop yields ExecutionOrder of the statements |
| RunMigration.ExecutionOrder | run_migration.py:71-86 | the table/other/index order; stated by ExecutionOrderIsPermutation, ExecutionOrderKeepsGroupOrder and ExecutionOrderByGroup |
| RunMigration.ExecutionOrderIsPermutation | run_migration.py:71-86 | the execution order holds the same statements, each as often |
| RunMigration.RefilterGroup | run_migration.py:76-86 | filtering one group by another gives the group or nothing |
| RunMigration.ExecutionOrderKeepsGroupOrder | run_migration.py:76-86 | within each group the statements keep their file order |
| RunMigration.ExecutionOrderByGroup | run_migration.py:85-86 | every CREATE TABLE runs before every other statement and every CREATE INDEX after |
| AttendanceRefactorMigration.IsCommentMeansStartsWith | migrate_attendance_refactor.py:45 | the character test is `startswith('--')` |
| AttendanceRefactorMigration.CollectLines | migrate_attendance_refactor.py:41-46 | the line loop keeps KeptLines of the text's lines |
| AttendanceRefactorMigration.KeptLinesStep | migrate_attendance_refactor.py:42-46 | one more line adds its stripped text iff that is kept |
| AttendanceRefactorMigration.KeptLinesExactly | migrate_attendance_refactor.py:41-46 | a text is kept iff it is some line's stripped text and neither empty nor a comment; kept texts are stripped |
| AttendanceRefactorMigration.StrippedMembers | migrate_attendance_refactor.py:52 | what survives stripping and filtering is exactly the stripped pieces that pass, all stripped |
| AttendanceRefactorMigration.NonEmptyStrippedExactly | migrate_attendance_refactor.py:52 | exactly the non-blank pieces come out, stripped |
| AttendanceRefactorMigration.StatementsShape | migrate_attendance_refactor.py:49-52 | every statement is non-empty, stripped and holds no `;` |
| AttendanceRefactorMigration.SqlStatements | migrate_attendance_refactor.py:49-52 | the `;`-split statements; stated by StatementsShape, NonEmptyStrippedExactly and SemicolonNeverInAStatement |
| AttendanceRefactorMigration.SplittersDisagreeOnQuotedSemicolon | migrate_attendance_refactor.py:52 | a quoted statement holding `;` comes out whole from run_migration.py but is no statement here |
| AttendanceRefactorMigration.SemicolonNeverInAStatement | migrate_attendance_refactor.py:52 | a text holding `;` is never a statement |
| AttendanceRefactorMigration.QuotedWholeInRunMigration | run_migration.py:48-69 | run_migration.py emits a quoted statement whole |
| AttendanceRefactorMigration.AlterIsNotCreate | migrate_attendance_refactor.py:62-78 | no statement is both an ALTER TABLE and a CREATE TABLE |
| AttendanceRefactorMigration.SkipExactlyWhenPresent | migrate_attendance_refactor.py:62-84 | skipped iff an ALTER TABLE of at least six tokens names a column its table already has, or a CREATE TABLE names an existing table |
| AttendanceRefactorMigration.Decide | migrate_attendance_refactor.py:62-88 | per statement: skip, abort or execute; stated by SkipExactlyWhenPresent, AbortOnlyOnShortCreate, OthersAlwaysRun and RerunSkips |
| AttendanceRefactorMigration.AbortOnlyOnShortCreate | migrate_attendance_refactor.py:78-80 | the run aborts iff a CREATE TABLE has fewer than three tokens |
| AttendanceRefactorMigration.OthersAlwaysRun | migrate_attendance_refactor.py:86-88 | any other statement is executed whatever the schema |
| AttendanceRefactorMigration.RerunSkips | migrate_attendance_refactor.py:62-84 | once the column or table a statement adds exists, the statement is skipped |
| JsDates.ParseIsoDate | frontend/mobile/js/utils/calculation.js:30-31 | a parsed date is a valid calendar date |
| JsDates.ParseClock | frontend/mobile/js/utils/calculation.js:11-12 | a parsed clock lies within one day |
| JsDates.ParseDateTime | frontend/mobile/js/utils/calculation.js:11-12 | a parsed date-time falls on the day its first ten characters name |
| JsDates.DateAtClock | frontend/mobile/js/utils/calculation.js:11-12 | `${date}T${time}` reads as that day at that clock, and fails iff either part fails |
| JsDates.ParseOfIsoFormat | frontend/mobile/src/leave.js:206-210 | the ISO text of a valid date reads back as that date |
| Calculation.TimeToMinutesOfClock | frontend/mobile/js/utils/calculation.js:163-166 | `H:M` in decimal reads as `H * 60 + M` |
| Calculation.ClockMinutes | frontend/mobile/js/utils/calculation.js:163-166 | two digit fields around one `:` read as hours times 60 plus minutes |
| Calculation.MinutesOfFields | frontend/mobile/js/utils/calculation.js:163-166 | a time that splits into two numeric fields reads as hours times 60 plus minutes |
| Calculation.TimeToMinutes | frontend/mobile/js/utils/calculation.js:163-166 | `timeToMinutes`; stated by TimeToMinutesOfClock, ClockMinutes and MinutesOfFields |
| Calculation.OverlapMinutes | frontend/mobile/js/utils/calculation.js:145-158 | the overlap is never negative |
| Calculation.OverlapCountsCommonMinutes | frontend/mobile/js/utils/calculation.js:145-158 | the overlap is the number of minutes both intervals contain |
| Calculation.OverlapSymmetric | frontend/mobile/js/utils/calculation.js:145-158 | the overlap is symmetric in the two intervals and at most either one's length |
| Calculation.TimeOverlap | frontend/mobile/js/utils/calculation.js:145-158 | never negative, and 0 when any bound is `NaN` |
| Calculation.TimeOverlapSymmetric | frontend/mobile/js/utils/calculation.js:145-158 | swapping the two intervals gives the same overlap |
| Calculation.DayMinutesOf | frontend/mobile/js/utils/calculation.js:61-85 | for clock readings within a day the working minutes lie within a day |
| Calculation.DayMinutesIsSpanLessLunch | frontend/mobile/js/utils/calculation.js:61-85 | within one day, the span less its overlap with 12:00-14:00 |
| Calculation.WrappedSpanKeepsLunch | frontend/mobile/js/utils/calculation.js:66-70 | a span past midnight is a day longer and loses no lunch |
| Calculation.LeaveHalvesCovers | frontend/mobile/js/utils/calculation.js:46-56 | half a day iff at most 4 hours, one day iff more than 4 and at most 8, else the fewest whole days covering the time |
| Calculation.SingleDayLeave | frontend/mobile/js/utils/calculation.js:46-56 | `NaN` iff the hours are `NaN`; otherwise LeaveHalves of the working minutes, at least half a day |
| Calculation.OvertimeIsForwardDistance | frontend/mobile/js/utils/calculation.js:126-140 | overtime is the forward distance round the clock, with no lunch taken off |
| Calculation.NearestHalvesIsNearest | frontend/mobile/js/utils/calculation.js:118-121 | the rounding picks the nearest half-day, a tie going up |
| Calculation.SingleDayOvertime | frontend/mobile/js/utils/calculation.js:118-121 | `NaN` iff the hours are `NaN` |
| Calculation.CrossDayIsNearest | frontend/mobile/js/utils/calculation.js:29-40 | the cross-day result is the nearest half-day to the whole days between plus both days' minutes |
| Calculation.LeaveDaysByRules | frontend/mobile/js/utils/calculation.js:9-41 | 0 when the end is before the start; the single-day rule when both dates are equal |
| Calculation.OvertimeDaysByRules | frontend/mobile/js/utils/calculation.js:90-113 | 0 when the end is before the start; the single-day rule when both dates are equal |
| Calculation.EndOfDay | frontend/mobile/js/utils/calculation.js:35 | "23:59" is minute 1439 |
| Calculation.StartOfDay | frontend/mobile/js/utils/calculation.js:36 | "00:00" is minute 0 |
| Calculation.LeaveCrossDay | frontend/mobile/js/utils/calculation.js:29-40 | across days: the start day to 23:59 and the end day from 00:00, each less lunch, plus the days between, rounded |
| Calculation.OvertimeCrossDay | frontend/mobile/js/utils/calculation.js:102-112 | across days: the start day to 23:59 and the end day from 00:00 with no lunch, plus the days between, rounded |
| Calculation.CrossDayExample | frontend/mobile/js/utils/calculation.js:29-40 | 09:00 one day to 17:30 the next counts three and a half days |
| LeaveClient.NormalizeDate | frontend/mobile/src/leave.js:195-196 | the text before the first `T`, which holds no `T`; a text without `T` is kept |
| LeaveClient.NormalizeCutsTime | frontend/mobile/src/leave.js:195-196 | a date with a time appended normalises to the date |
| LeaveClient.SingleDayLeave | frontend/mobile/src/leave.js:258-272 | half a day iff 09:00-12:00 or 14:00-17:30, a day iff 09:00-17:30, nothing otherwise |
| LeaveClient.CalculateLeaveDays | frontend/mobile/src/leave.js:193-250 | the function computes LeaveDays of its arguments |
| LeaveClient.LeaveDays | frontend/mobile/src/leave.js:193-250 | `calculateLeaveDays` in half-days; stated by WalkClosedForm, OnlyDatePartsMatter, RoundingKeepsHalves and CalculatorsDisagreeAcrossDays, and computed by the loop of Walk |
| LeaveClient.Walk | frontend/mobile/src/leave.js:220-247 | the loop totals the credits of the days it visits |
| LeaveClient.VisitedDays | frontend/mobile/src/leave.js:220-223 | the loop visits at most 100 days |
| LeaveClient.WalkBeforeEnd | frontend/mobile/src/leave.js:226-243 | before the end day the total is the start day's credit plus a full day per later day |
| LeaveClient.WalkClosedForm | frontend/mobile/src/leave.js:204-249 | nothing when the end precedes the start; start credit, end credit and a full day between within 100 days; otherwise the start credit and 99 full days |
| LeaveClient.OnlyDatePartsMatter | frontend/mobile/src/leave.js:195-196 | anything from a `T` on in either date is ignored |
| LeaveClient.RoundingKeepsHalves | frontend/mobile/src/leave.js:249 | the rounding to a tenth keeps a count of half-days, so the result is a multiple of 0.5 |
| LeaveClient.CalculatorsDisagreeAcrossDays | frontend/mobile/src/leave.js:204-249 | two full consecutive days count 2 days here and 3.5 in calculation.js |
| LeaveClient.StatusClass | frontend/mobile/src/leave.js:296-301 | success iff approved, danger iff rejected or cancelled, warning iff another status containing "approved", pending otherwise |
| LeaveClient.NoApprovedInside | frontend/mobile/src/leave.js:297-299 | "rejected" and "cancelled" do not contain "approved" |
| LeaveClient.IntermediateStatesWarn | frontend/mobile/src/leave.js:296-301 | dept_approved and vp_approved show as warning, pending as pending |
| LeaveClient.CountPendingLeaves | frontend/mobile/src/leave.js:317-322 | 0 for a non-array; otherwise the number of cancellable items, at most the length |
| LeaveClient.CanCancelLeave | frontend/mobile/src/leave.js:308-310 | `canCancelLeave`; CountPendingLeaves and CountPendingExtremes count the items it accepts |
| LeaveClient.CountPendingExtremes | frontend/mobile/src/leave.js:308-322 | zero iff no item can be cancelled; the length iff all can |
| LeaveClient.CountPendingAppend | frontend/mobile/src/leave.js:317-322 | the count of two lists together is the sum of their counts |
| DateFormat.CharValue | frontend/mobile/js/utils/format.js:60-64 | at most 36, and a decimal digit's own value |
| DateFormat.DigitPrefix | frontend/mobile/js/utils/format.js:60-64 | the longest prefix all of whose characters are digits in the radix |
| DateFormat.DecimalRun | frontend/mobile/js/utils/format.js:60-64 | a decimal digit string is a whole radix-10 run with its value |
| DateFormat.DecimalRunStops | frontend/mobile/js/utils/format.js:60-64 | the run of digits stops at the first non-digit |
| DateFormat.ParseIntOfDigits | frontend/mobile/js/utils/format.js:60-64 | `parseInt` of digits followed by a non-alphanumeric text is the digits' value |
| DateFormat.ParseIntDecimal | frontend/mobile/js/utils/format.js:60-64 | a text opening with a digit and not `0x` is read in decimal |
| DateFormat.Pad2OfTwoDigits | frontend/mobile/js/utils/format.js:75-83 | a two-digit field read and padded again gives back the field |
| DateFormat.PaddedTwoDigits | frontend/mobile/js/utils/format.js:75-83 | padding a number below 100 gives its two decimal digits |
| DateFormat.FieldDigits | frontend/mobile/js/utils/format.js:75-83 | a two-digit field is the two digits of its value |
| DateFormat.DigitsValueInjective | frontend/mobile/js/utils/format.js:85-87 | digit strings of one length with one value are equal |
| DateFormat.NormalizeDateStr | frontend/mobile/js/utils/format.js:12-22 | empty stays empty; without `T` gets `T00:00:00`; with `T`, a prefix holding no `.`, `+` or `Z`, and the text itself when it holds none |
| DateFormat.CleanTime | frontend/mobile/js/utils/format.js:46-51 | the result holds no `+`, `Z` or `.`, and a clean time is kept |
| DateFormat.ParseDateTime | frontend/mobile/js/utils/format.js:27-66 | a stamp iff the text is non-empty, the date part has exactly three `-` fields and the cleaned time part at least two `:` fields |
| DateFormat.FormatDateTime | frontend/mobile/js/utils/format.js:9-101 | empty without a start; date empty iff time empty iff there is no start or either side fails to parse |
| DateFormat.FormatDate | frontend/mobile/js/utils/format.js:106-109 | empty iff the formatted date is empty |
| DateFormat.HalfDaysText | frontend/mobile/js/utils/format.js:118 | a whole count shows with no point, an odd one ends in `.5`, and a minus sign iff negative |
| DateFormat.DefaultDaysText | frontend/mobile/js/utils/format.js:117 | the defaults show as `1` and `0.5` |
| DateFormat.RangeText | frontend/mobile/js/utils/format.js:118 | ends with `共N天`; begins with the date info and a space when there is one, and is only `共N天` otherwise |
| DateFormat.FormatRange | frontend/mobile/js/utils/format.js:114-119 | the title without a start; otherwise ends with the day count, the default when missing, after the date text when there is one |
| DateFormat.FormatLeaveRange | frontend/mobile/js/utils/format.js:114-119 | `请假` without a start; a missing count shows as 1 day |
| DateFormat.FormatOvertimeRange | frontend/mobile/js/utils/format.js:238-243 | `加班` without a start; a missing count shows as 0.5 day |
| DateFormat.MissingEndIsStart | frontend/mobile/js/utils/format.js:25 | a missing end formats as the start again; a parsed start is the same day as itself iff its year, month and day are numbers, and then shows as one date with two equal clocks |
| DateFormat.SplitThree | frontend/mobile/js/utils/format.js:53-54 | three fields joined by a separator none holds split back into them |
| DateFormat.DateFields | frontend/mobile/js/utils/format.js:53 | an ISO date splits into its three `-` fields |
| DateFormat.TimeFields | frontend/mobile/js/utils/format.js:46-54 | an ISO time needs no cleaning and splits into its `:` fields |
| DateFormat.IsoLocalParts | frontend/mobile/js/utils/format.js:33-36 | an ISO local date-time splits at its `T` into date and time |
| DateFormat.IsoLocalNormal | frontend/mobile/js/utils/format.js:12-22 | an ISO local date-time is kept whole by `normalizeDateStr` |
| DateFormat.FieldRead | frontend/mobile/js/utils/format.js:60-64 | a digit field reads as its value, and the `'0'` default leaves it alone |
| DateFormat.IsoLocalParsed | frontend/mobile/js/utils/format.js:12-66 | an ISO local date-time is normalised to itself and read field by field |
| DateFormat.FormatIsoLocal | frontend/mobile/js/utils/format.js:9-101 | for ISO local date-times: one date and the two clocks iff the date fields agree, two dated clocks otherwise, copying the fields |
| DateFormat.FormatOfStamps | frontend/mobile/js/utils/format.js:68-100 | for two strings that parse, the same-day or two-line text of their stamps |
| DateFormat.SameDayIffSameFields | frontend/mobile/js/utils/format.js:85-87 | same-length digit fields give the same day iff they are the same text |
| DateFormat.StampShown | frontend/mobile/js/utils/format.js:75-98 | a stamp read from two-digit fields shows those fields |
| DateFormat.SpaceSeparatedTimeIsLost | frontend/mobile/js/utils/format.js:12-66 | `YYYY-MM-DD HH:mm` is read at midnight of that day: the clock is lost |
| DateFormat.DayFieldRead | frontend/mobile/js/utils/format.js:62 | `parseInt("DD HH:mm")` is DD |
| DateFormat.ParsedFrom | frontend/mobile/js/utils/format.js:53-65 | a text whose parts split into the fields parses to their `parseInt` values |
| DateFormat.SpaceSeparatedParts | frontend/mobile/js/utils/format.js:21-36 | a date part without `T` is given the midnight clock |
| DateFormat.PartsAtT | frontend/mobile/js/utils/format.js:33-36 | a text with one `T` splits around it |
| DateFormat.ZerosField | frontend/mobile/js/utils/format.js:21 | `00` is a two-digit field of value 0 |
| DateFormat.MidnightRead | frontend/mobile/js/utils/format.js:21 | `00:00:00` holds no `T`, needs no cleaning and reads as hour 0, minute 0 |
| Validation.ValidatePassword | frontend/mobile/js/utils/validation.js:8-16 | valid iff non-empty and at least `minLength` long (6 when omitted); the empty message first, then the length message |
| Validation.ValidatePasswordMatch | frontend/mobile/js/utils/validation.js:21-26 | valid iff the two strings are equal, else the mismatch message |
| Validation.ValidatePasswordNotSame | frontend/mobile/js/utils/validation.js:31-36 | valid iff the two strings differ, else the same-as-old message |
| Validation.MatchAndNotSameComplement | frontend/mobile/js/utils/validation.js:21-36 | exactly one of the two comparisons passes, and both are symmetric |
| Validation.DateValue | frontend/mobile/js/utils/validation.js:45 | a day number iff the text is a valid ISO date |
| Validation.ValidateDateRange | frontend/mobile/js/utils/validation.js:41-49 | valid iff both dates are given and the end is not read as before the start; the missing message first, then the order message |
| Validation.DateRangeOfIsoDates | frontend/mobile/js/utils/validation.js:41-49 | on picker dates, valid iff the end is not before the start; one date twice is valid |
| Validation.IsoDateValue | frontend/mobile/js/utils/validation.js:45 | a formatted date reads back as its own day number |
| Validation.UnreadableDatesPass | frontend/mobile/js/utils/validation.js:45-48 | an unreadable date never fails the order check |
| Validation.ValidateTimeRange | frontend/mobile/js/utils/validation.js:54-62 | valid iff both times are given and the end is not string-less than the start; the missing message first, then the order message |
| Validation.LexLessAfter | frontend/mobile/js/utils/validation.js:58 | string order of two same-length prefixes is decided by them unless they are equal |
| Validation.TwoDigitOrder | frontend/mobile/js/utils/validation.js:58 | on two-digit fields string order is numeric order |
| Validation.LexTrichotomy | frontend/mobile/js/utils/validation.js:58 | two same-length strings are equal iff neither is smaller |
| Validation.TimeRangeIsMinuteOrder | frontend/mobile/js/utils/validation.js:54-62 | for picker times, valid iff the end's minutes since midnight, as calculation.js reads them, are not below the start's |
| Validation.ClockStringOrder | frontend/mobile/js/utils/validation.js:58 | two picker times compare as strings as their minute counts compare |
| Validation.ClockLexOrder | frontend/mobile/js/utils/validation.js:58 | `H:M` strings with same-length hours compare by hours, then minutes |
| Validation.MinuteOrder | frontend/mobile/js/utils/validation.js:58 | hours then minutes below 60 order like the minute counts |
| Validation.ValidateRequired | frontend/mobile/js/utils/validation.js:67-72 | valid iff the value is truthy and not a string of white space only, else the field's required message |
| Validation.ServerRuleImpliesFormRule | frontend/mobile/js/utils/validation.js:8-16 | a password the server's strength rule accepts passes the form's default rule; `abcdef` passes the form but not the server |
| Overview.DatedStatus | miniprogram/pages/overview/overview.js:213-221 | the formatted date and time of the range, its days (1 when missing) and an extra text starting with them |
| Overview.UndatedStatus | miniprogram/pages/overview/overview.js:223-224 | no date or time; days empty iff the count is missing or 0; extra the days or else the word |
| Overview.GetStatusInfo | miniprogram/pages/overview/overview.js:206-241 | empty for checked and not-checked cards; a non-empty extra for leave and overtime; the dated or undated card by whether a start is given |
| Overview.MissingDaysIsOneDay | miniprogram/pages/overview/overview.js:215-228 | a dated leave or overtime without a day count shows `1天` |
| Overview.BuildPerson | miniprogram/pages/overview/overview.js:193-204 | compact iff checked or not checked; the item's id and name with the status info's fields |
| Overview.Classify | miniprogram/pages/overview/overview.js:109-124 | no group for a falsy item; else leave, then overtime, then checked in by a check-in time, else not checked |
| Overview.Members | miniprogram/pages/overview/overview.js:109-124 | a group holds at most as many entries as items |
| Overview.Cards | miniprogram/pages/overview/overview.js:112-122 | one card per entry, in order |
| Overview.Bucket | miniprogram/pages/overview/overview.js:109-124 | a group holds at most as many cards as items |
| Overview.BucketSnoc | miniprogram/pages/overview/overview.js:109-124 | one more item adds its card to the group its flags choose |
| Overview.BucketIsCards | miniprogram/pages/overview/overview.js:109-124 | a group's cards are its entries' cards |
| Overview.CardsSnoc | miniprogram/pages/overview/overview.js:112-122 | one more entry adds its card at the end |
| Overview.BucketsPartition | miniprogram/pages/overview/overview.js:109-124 | the four groups together hold one card per truthy item |
| Overview.BucketHolds | miniprogram/pages/overview/overview.js:109-124 | every truthy item's card is in the group its flags choose |
| Overview.MemberHolds | miniprogram/pages/overview/overview.js:109-124 | every truthy item is an entry of the group its flags choose |
| Overview.BucketComesFrom | miniprogram/pages/overview/overview.js:109-124 | every card of a group comes from an item whose flags choose it |
| Overview.MemberComesFrom | miniprogram/pages/overview/overview.js:109-124 | every entry of a group is an item whose flags choose it |
| Overview.BucketCompact | miniprogram/pages/overview/overview.js:202 | checked and not-checked cards are compact, leave and overtime cards are not |
| Overview.Optional | miniprogram/pages/overview/overview.js:151-179 | a group is pushed iff its list is non-empty |
| Overview.Layout | miniprogram/pages/overview/overview.js:133-190 | on a rest day only the optional overtime group; on a workday the checked-in group last |
| Overview.LayoutPieces | miniprogram/pages/overview/overview.js:149-190 | on a workday: the optional leave, not-checked and overtime groups, then checked in |
| Overview.WorkdayLists | miniprogram/pages/overview/overview.js:149-190 | every workday group carries its own list and that list's size |
| Overview.WorkdayOrder | miniprogram/pages/overview/overview.js:149-190 | workday groups come as leave, not checked, overtime, checked in |
| Overview.WorkdayShows | miniprogram/pages/overview/overview.js:148-188 | the first three shown iff non-empty, checked in always |
| Overview.RestDayLayout | miniprogram/pages/overview/overview.js:133-146 | on a rest day at most the overtime group, shown iff non-empty, with its list and size |
| Overview.WorkdaySum | miniprogram/pages/overview/overview.js:149-190 | workday counts add up to the four lists' sizes |
| Overview.OptionalSum | miniprogram/pages/overview/overview.js:151-179 | an optional group's count is its list's size |
| Overview.Partition | miniprogram/pages/overview/overview.js:109-124 | the loop fills each list with exactly its group's cards |
| Overview.FormatOverview | miniprogram/pages/overview/overview.js:102-191 | the method returns Categories of the answer |
| Overview.Categories | miniprogram/pages/overview/overview.js:102-191 | what `formatOverview` returns; stated by Layout, RestDayShowsOvertimeOnly, WorkdayCountsAddUp and CheckedInLast, and computed by FormatOverview |
| Overview.Groups | miniprogram/pages/overview/overview.js:133-190 | the pushes give Layout of the four lists |
| Overview.CheckedInLast | miniprogram/pages/overview/overview.js:126-190 | on a workday the checked-in group is last, sorted latest first, holding exactly the checked-in cards |
| Overview.RestDayShowsOvertimeOnly | miniprogram/pages/overview/overview.js:133-146 | on a rest day only the overtime group, shown iff somebody works overtime |
| Overview.WorkdayCountsAddUp | miniprogram/pages/overview/overview.js:102-191 | on a workday every truthy item is counted on exactly one card |
| Overview.SumCountsAppend | miniprogram/pages/overview/overview.js:135-190 | the counts of two group lists together add up |

## Left out

- **I/O:** HTTP routing, database sessions, commits, logging and printing are left out. Each table is a map or a sequence of rows, and each query is a filter over it.
- **The clock:** `datetime.now()` and `new Date()` become parameters.
- **Time zones:** the `pytz`-based conversion is not modelled. Instants are local and whole seconds, and sub-second precision is dropped. The cache alone counts microseconds.
- **Concurrency:** the system has no row-level locking, and the model runs every transition in sequence.
- **Floating point:**
  - `work_hours` sums and attendance rates are not modelled.
  - The per-type leave breakdown of the statistics is not modelled.
  - JavaScript float rounding is modelled exactly on integer half-days and minutes. A threshold such as `hours <= 4` becomes `minutes <= 240`.
- **SQL order:** ties among equal sort keys are left unordered, and `Listing.SortDesc` promises no stable order.
  - `.first()` without `ORDER BY` on supervision links and on attendance records (`get_by_user_and_date`, backend/repositories/attendance_repository.py) is read as the lowest id. Nothing in the schema makes (user, date) unique, although the attendance service itself keeps one record per day (`AttendanceService.SecondCheckinFails`).
  - The ISO-string range filter on holiday rows in `calculate_workdays` (backend/services/statistics_service.py:41-44) is not modelled. Its dictionary is built from all rows, which gives the same count, since only dates inside the range are looked up.
- **The last calendar day:** walks that step one day past `9999-12-31` would overflow in Python. The walking members require the end date to be before that day.
- **Migrations:** executing the statements (the schema change itself) is not modelled, and `AttendanceRefactorMigration.Decide` stops at the decision.
  - Table names are looked up by exact text. SQLite's `PRAGMA table_info(t)` matches `t` regardless of case, so `ALTER TABLE Attendances ADD COLUMN x`, with `x` already in `attendances`, is skipped by the script but executed by the model. The `sqlite_master` test of the CREATE TABLE check is case-sensitive in both.
- **JavaScript `Date`:** only ISO date and local date-time strings are parsed. Legacy forms are an invalid date, and daylight-saving transitions are assumed absent.
  - `Validation.DateValue` reads date-only ISO strings. A date-time string, which `new Date` also reads, is taken as unreadable here and so passes the order check.
  - `JsDates.ParseClock` refuses the hour `24`, which ECMAScript accepts in `T24:00` as the end of the day.
- **JavaScript numbers:** `parseInt` is exact and unbounded, with no rounding above 2^53. Non-string arguments to the string helpers are not modelled.
- **Text:** strings are sequences of code points. UTF-16 surrogate pairs are not modelled.
  - The digit fields `strptime` reads (`Calendar.ParseYmd`) accept ASCII digits only, while Python's `\d` also accepts other Unicode decimal digits.
- **Timestamps:** the `updated_at` columns that every update rewrites (base_repository.py and the `onupdate=datetime.now` columns of models.py) are not part of the rows, so the `updated_at` that vp_department_service.py returns is not modelled either.
- **Parts of the system outside this model:**
  - geocoding, WeChat integration, JWT and bcrypt;
  - the thin CRUD services, the admin and mobile page scripts, and the other mini-program pages.
- **Leave client:** an unreadable date in `calculateLeaveDays` ends the walk at once and gives 0. Walked days are day numbers, so a walk across a daylight-saving change is not modelled.
- Statistics.MyStatisticsFacts: states the counters but not the leave and overtime day sums (floats) or the work hours.
- Holidays.BatchAllOrNothing: assumes a permitted caller, a known kind and well-formed dates in order. The permission, format, order and kind errors are stated by `Holidays.BatchResult`, which is not separately proved.
- Overview.CheckedInLast: the sort key is a given function of the check-in text, standing for `new Date(t).getTime()`.
  - A text that function cannot read gets key 0.
  - In the browser the comparator would then return `NaN`, which `sort` treats as a tie, so that order is not modelled.
- Listing.SortDesc: promises sorted order and the same rows, not the stability of JavaScript's or SQL's sort.
- Security.ValidatePasswordStrength: the upper-case, lower-case and digit classes are ASCII. Python's `isupper`, `islower` and `isdigit` are Unicode, so a password such as `Ñandú123` is valid in the source but refused here with the upper-case message.
- Text.Upper: maps only `a` to `z`. Python's `upper()` maps every cased letter (`ı` to `I`) and can lengthen the text (`ß` to `SS`), so `RunMigration.Group` can differ from the source on such text.
- Calculation.MinutesOfFields: `Number()` is read on ASCII digit fields only. A field such as ` 9`, `+9`, `9.5` or `0x10`, which `Number` reads as a number, is taken as `NaN` here (`Calculation.TimeToMinutesOfClock` and `Calculation.ClockMinutes` rest on the same reading).
- AttendanceRules.PolicyForDate: stored policy times are assumed to be canonical `HH:MM`; they are kept as parsed minutes. A JSON `null` in a weekday entry is read as an absent key, and a weekday entry that is a string as no entry. In the source the first makes `strptime` raise a `TypeError` and the second makes `update` raise a `ValueError`; neither error is modelled.
- AttendanceService.ServiceCheckin: the window message prints the zero-padded time, while the source prints the stored text. A policy stored as `8:00` shows `8:00` in the source and `08:00` here. The same holds for `AttendanceService.ServiceCheckout`.
