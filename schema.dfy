/**
 * The persistent records of the lead-management store: the enumerations the
 * SQLite schema constrains with CHECK clauses, and one datatype per table row.
 * Timestamps are integer seconds; calendar dates are `Day(t)`.
 */
module Schema {
  import opened Wrappers

  datatype Role = Admin | Manager | Marketer | BdSales

  function RoleName(r: Role): string
  {
    match r
    case Admin => "admin"
    case Manager => "manager"
    case Marketer => "marketer"
    case BdSales => "bd_sales"
  }

  /** The CHECK on `users.role`. */
  predicate RoleAllowed(s: string)
  {
    s == "admin" || s == "manager" || s == "marketer" || s == "bd_sales"
  }

  /** Reading a stored role back; `None` for a value the CHECK refuses. */
  function ParseRole(s: string): (r: Option<Role>)
    ensures r.Some? <==> RoleAllowed(s)
    ensures r.Some? ==> RoleName(r.value) == s
  {
    if s == "admin" then Some(Admin)
    else if s == "manager" then Some(Manager)
    else if s == "marketer" then Some(Marketer)
    else if s == "bd_sales" then Some(BdSales)
    else None
  }

  lemma RoleNameRoundTrip(r: Role)
    ensures RoleAllowed(RoleName(r)) && ParseRole(RoleName(r)) == Some(r)
  {
  }

  datatype LeadStatus = Pending | Rejected | Accepted | Resubmitted

  function StatusName(s: LeadStatus): string
  {
    match s
    case Pending => "Pending"
    case Rejected => "Rejected"
    case Accepted => "Accepted"
    case Resubmitted => "Resubmitted"
  }

  /** The CHECK on `leads.status`. */
  predicate StatusAllowed(s: string)
  {
    s == "Pending" || s == "Rejected" || s == "Accepted" || s == "Resubmitted"
  }

  function ParseStatus(s: string): (r: Option<LeadStatus>)
    ensures r.Some? <==> StatusAllowed(s)
    ensures r.Some? ==> StatusName(r.value) == s
  {
    if s == "Pending" then Some(Pending)
    else if s == "Rejected" then Some(Rejected)
    else if s == "Accepted" then Some(Accepted)
    else if s == "Resubmitted" then Some(Resubmitted)
    else None
  }

  lemma StatusNameRoundTrip(s: LeadStatus)
    ensures StatusAllowed(StatusName(s)) && ParseStatus(StatusName(s)) == Some(s)
  {
  }

  /** Every status value the handlers write; 'reverted' is among them. */
  datatype AssignmentStatus = AssignmentPending | Acted | Reassigned | Expired | Reverted

  function AssignmentStatusName(s: AssignmentStatus): string
  {
    match s
    case AssignmentPending => "pending"
    case Acted => "acted"
    case Reassigned => "reassigned"
    case Expired => "expired"
    case Reverted => "reverted"
  }

  /** The CHECK on `lead_assignments.status` exactly as the schema writes it. */
  predicate AssignmentStatusAllowedAsWritten(s: string)
  {
    s == "pending" || s == "acted" || s == "reassigned" || s == "expired"
  }

  /** The enumeration the lifecycle actually uses: the schema's four values and 'reverted'. */
  predicate AssignmentStatusAllowed(s: string)
  {
    AssignmentStatusAllowedAsWritten(s) || s == "reverted"
  }

  /** The schema's CHECK refuses the value the revert handler writes. */
  lemma RevertedRefusedAsWritten()
    ensures !AssignmentStatusAllowedAsWritten(AssignmentStatusName(Reverted))
    ensures forall s: AssignmentStatus :: s != Reverted ==> AssignmentStatusAllowedAsWritten(AssignmentStatusName(s))
  {
  }

  /** With 'reverted' added, every value the model can write is admitted. */
  lemma EveryAssignmentStatusAllowed(s: AssignmentStatus)
    ensures AssignmentStatusAllowed(AssignmentStatusName(s))
  {
  }

  datatype NoteType = RejectionNote | ResubmissionNote | SystemNote | EditNote | ReversionNote

  function NoteTypeName(t: NoteType): string
  {
    match t
    case RejectionNote => "rejection"
    case ResubmissionNote => "resubmission"
    case SystemNote => "system"
    case EditNote => "edit"
    case ReversionNote => "reversion"
  }

  /** `notifications.notification_type`; Info is the column default. */
  datatype NotificationKind = Info | Warning | Success | AssignmentKind

  datatype ActivityType = NoteActivity | Task | FollowUp | ReminderActivity | CallLog | EmailLog | StageChangeActivity | AssignmentActivity

  function ActivityTypeName(t: ActivityType): string
  {
    match t
    case NoteActivity => "note"
    case Task => "task"
    case FollowUp => "follow_up"
    case ReminderActivity => "reminder"
    case CallLog => "call_log"
    case EmailLog => "email_log"
    case StageChangeActivity => "stage_change"
    case AssignmentActivity => "assignment"
  }

  datatype User = User(id: int, name: string, role: Role, isProtected: bool)

  /** The editable contact columns of a lead, in the order the edit handler compares them. */
  datatype Contact = Contact(fullName: string, email: string, phone: string, company: string,
                             domain: string, industry: string, country: string, state: string, city: string)

  datatype Lead = Lead(
    submitter: int,
    contact: Contact,
    servicesCsv: string,
    attachment: Option<string>,
    status: LeadStatus,
    currentManager: Option<int>,
    assignedAt: Option<int>,
    acceptedAt: Option<int>,
    assignedBd: Option<int>,
    assignedToBdAt: Option<int>,
    stage: Option<int>,
    createdAt: int)

  /** A row of `lead_assignments`: one manager's period of ownership of a lead. */
  datatype Assignment = Assignment(leadId: int, managerId: int, assignedAt: int, deadlineAt: int,
                                   actedAt: Option<int>, status: AssignmentStatus, isInitial: bool)

  /** A row of `lead_assignment_history`, written by the deadline sweep. */
  datatype Reassignment = Reassignment(leadId: int, fromManager: int, toManager: int, reason: string)

  datatype Note = Note(leadId: int, author: int, noteType: NoteType, message: string, createdAt: int)

  datatype BdHistory = BdHistory(leadId: int, fromBd: Option<int>, toBd: int, assignedBy: int, at: int, reason: string)

  datatype StageHistory = StageHistory(leadId: int, fromStage: Option<int>, toStage: int, changedBy: int,
                                       note: Option<string>, at: int)

  datatype Notification = Notification(userId: int, leadId: int, message: string, kind: NotificationKind,
                                       isRead: bool, soundEnabled: bool, createdAt: int)

  datatype Activity = Activity(id: int, leadId: int, actorId: int, activityType: ActivityType,
                               title: Option<string>, description: string, dueAt: Option<int>,
                               reminderAt: Option<int>, completedAt: Option<int>, createdAt: int)

  /** A row of `pipeline_stages`; `createdBy` is `created_by_id`, a user id the column requires. */
  datatype Stage = Stage(id: int, name: string, color: string, description: string, position: int, createdBy: int)

  /** A row of `services`. */
  datatype Service = Service(id: nat, name: string)

  /** A row of `lead_edit_changes`. */
  datatype EditChange = EditChange(leadId: int, editor: int, field: string, oldValue: string, newValue: Option<string>)

  const SecondsPerHour := 3600
  const SecondsPerDay := 86400

  /** The calendar date of a timestamp (`DATE(t)`), counted in days. */
  function Day(t: int): int
  {
    t / SecondsPerDay
  }

  /** The user row with the given id, if any. */
  function FindUser(users: seq<User>, id: int): (r: Option<User>)
    ensures r.Some? ==> r.value in users && r.value.id == id
    ensures r.None? ==> forall u :: u in users ==> u.id != id
  {
    if |users| == 0 then None
    else if users[0].id == id then Some(users[0])
    else FindUser(users[1..], id)
  }

  /** Users sorted by strictly increasing, positive id (SQLite AUTOINCREMENT keys). */
  predicate UsersOrdered(users: seq<User>)
  {
    (forall i :: 0 <= i < |users| ==> users[i].id > 0) &&
    (forall i, j :: 0 <= i < j < |users| ==> users[i].id < users[j].id)
  }
}
