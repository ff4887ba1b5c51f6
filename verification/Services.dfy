/** What each approval-workflow call does to the tables (app/services/approval_service.py). */
module ApprovalService {
  import opened Models

  /** The pending row of a task, if it has one. */
  function FindPending(approvals: seq<Approval>, taskId: nat): (r: Option<nat>)
    ensures r.Some? ==>
              && r.value < |approvals|
              && approvals[r.value].PendingFor(taskId)
              && forall j :: 0 <= j < r.value ==> !approvals[j].PendingFor(taskId)
    ensures r.None? ==> forall j :: 0 <= j < |approvals| ==> !approvals[j].PendingFor(taskId)
  {
    FindFirst(approvals, (a: Approval) => a.PendingFor(taskId))
  }

  function WithStatus(tasks: seq<Task>, taskId: nat, status: TaskStatus): seq<Task>
    requires taskId < |tasks|
  {
    tasks[taskId := tasks[taskId].(status := Some(status))]
  }

  function NewRequest(taskId: nat, requestedBy: nat): Approval {
    Approval(taskId, requestedBy, Pending, None, None, None)
  }

  function Stamped(row: Approval, verdict: ApprovalStatus, reviewer: nat, notes: Option<string>, now: int): Approval {
    row.(status := verdict, reviewedBy := Some(reviewer), reviewedAt := Some(now), notes := notes)
  }

  function RequestApproval(db: Tables, taskId: nat, requestedBy: nat): Response
    requires taskId < |db.tasks|
  {
    if FindPending(db.approvals, taskId).Some? then Response(db, Err(Conflict))
    else
      Response(
        db.(approvals := db.approvals + [NewRequest(taskId, requestedBy)],
            tasks := WithStatus(db.tasks, taskId, InReview)),
        Ok(|db.approvals|))
  }

  /** The status the task takes when its pending row is decided. */
  function StatusAfter(verdict: ApprovalStatus): TaskStatus {
    if verdict.Approved? then Done else InProgress
  }

  /** `approve_task` and `reject_task`, which differ in the verdict. */
  function Decide(
    db: Tables, taskId: nat, verdict: ApprovalStatus, reviewer: nat, notes: Option<string>, now: int): Response
    requires taskId < |db.tasks|
  {
    var pending := FindPending(db.approvals, taskId);
    if pending.None? then Response(db, Err(Conflict))
    else
      var i := pending.value;
      Response(
        db.(approvals := db.approvals[i := Stamped(db.approvals[i], verdict, reviewer, notes, now)],
            tasks := WithStatus(db.tasks, taskId, StatusAfter(verdict))),
        Ok(i))
  }
}

/** Creating and patching tasks (app/services/task_service.py, app/schemas/task.py). */
module TaskService {
  import opened Models

  /** The keys a PATCH body may carry. */
  datatype Field = TitleField | DescriptionField | StatusField | PriorityField | AssigneeField | DueDateField

  datatype Value =
    | Null
    | Text(text: string)
    | StatusValue(status: TaskStatus)
    | PriorityValue(priority: TaskPriority)
    | UserRef(user: nat)
    | Day(day: int)

  predicate Fits(f: Field, v: Value) {
    v.Null? ||
    match f
    case TitleField => v.Text?
    case DescriptionField => v.Text?
    case StatusField => v.StatusValue?
    case PriorityField => v.PriorityValue?
    case AssigneeField => v.UserRef?
    case DueDateField => v.Day?
  }

  /** A validated PATCH body: only the keys the caller set, each with a value of its column's type. */
  type Updates = u: map<Field, Value> | forall f :: f in u ==> Fits(f, u[f])
    witness map[]

  function AsText(v: Value): Option<string> {
    if v.Text? then Some(v.text) else None
  }

  function AsStatus(v: Value): Option<TaskStatus> {
    if v.StatusValue? then Some(v.status) else None
  }

  function AsPriority(v: Value): Option<TaskPriority> {
    if v.PriorityValue? then Some(v.priority) else None
  }

  function AsUser(v: Value): Option<nat> {
    if v.UserRef? then Some(v.user) else None
  }

  function AsDay(v: Value): Option<int> {
    if v.Day? then Some(v.day) else None
  }

  /** The value a column holds. */
  function GetAttr(task: Task, f: Field): Value {
    match f
    case TitleField => if task.title.None? then Null else Text(task.title.value)
    case DescriptionField => if task.description.None? then Null else Text(task.description.value)
    case StatusField => if task.status.None? then Null else StatusValue(task.status.value)
    case PriorityField => if task.priority.None? then Null else PriorityValue(task.priority.value)
    case AssigneeField => if task.assigneeId.None? then Null else UserRef(task.assigneeId.value)
    case DueDateField => if task.dueDate.None? then Null else Day(task.dueDate.value)
  }

  /** One assignment of the patch loop. */
  function SetAttr(task: Task, f: Field, v: Value): Task {
    match f
    case TitleField => task.(title := AsText(v))
    case DescriptionField => task.(description := AsText(v))
    case StatusField => task.(status := AsStatus(v))
    case PriorityField => task.(priority := AsPriority(v))
    case AssigneeField => task.(assigneeId := AsUser(v))
    case DueDateField => task.(dueDate := AsDay(v))
  }

  /** The patched task, each column on its own: no order of assignment is involved. */
  function Override(task: Task, updates: Updates): Task {
    Task(
      task.projectId,
      task.reporterId,
      if TitleField in updates then AsText(updates[TitleField]) else task.title,
      if DescriptionField in updates then AsText(updates[DescriptionField]) else task.description,
      if StatusField in updates then AsStatus(updates[StatusField]) else task.status,
      if PriorityField in updates then AsPriority(updates[PriorityField]) else task.priority,
      if AssigneeField in updates then AsUser(updates[AssigneeField]) else task.assigneeId,
      if DueDateField in updates then AsDay(updates[DueDateField]) else task.dueDate)
  }

  predicate DirectDoneTransition(updates: Updates) {
    StatusField in updates && updates[StatusField] == StatusValue(Done)
  }

  /** The constraints the commit checks on a task row: NOT NULL columns and the assignee key. */
  predicate Storable(db: Tables, task: Task) {
    task.NotNull() && (task.assigneeId.Some? ==> task.assigneeId.value < |db.users|)
  }

  /** The body of POST /projects/{id}/tasks. */
  datatype TaskCreate = TaskCreate(
    title: string,
    description: Option<string>,
    status: TaskStatus,
    priority: TaskPriority,
    assigneeId: Option<nat>,
    dueDate: Option<int>)

  function NewTask(projectId: nat, reporterId: nat, body: TaskCreate): Task {
    Task(projectId, reporterId, Some(body.title), body.description, Some(body.status), Some(body.priority),
         body.assigneeId, body.dueDate)
  }

  function CreateTask(db: Tables, projectId: nat, reporterId: nat, body: TaskCreate): Response {
    var task := NewTask(projectId, reporterId, body);
    if !Storable(db, task) then Response(db, Err(CommitFailed))
    else Response(db.(tasks := db.tasks + [task]), Ok(|db.tasks|))
  }

  function UpdateTask(db: Tables, taskId: nat, updates: Updates): Response
    requires taskId < |db.tasks|
  {
    var task := Override(db.tasks[taskId], updates);
    if !Storable(db, task) then Response(db, Err(CommitFailed))
    else Response(db.(tasks := db.tasks[taskId := task]), Ok(taskId))
  }
}

/** Accounts, organizations and memberships (app/services/org_service.py, app/services/auth_service.py). */
module OrgService {
  import opened Models
  import opened Deps

  function FindUser(users: seq<User>, email: string): (r: Option<nat>)
    ensures r.Some? ==> r.value < |users| && users[r.value].email == email
    ensures r.None? ==> forall j :: 0 <= j < |users| ==> users[j].email != email
  {
    FindFirst(users, (u: User) => u.email == email)
  }

  function RegisterUser(db: Tables, email: string, fullName: string): Response {
    if FindUser(db.users, email).Some? then Response(db, Err(Conflict))
    else Response(db.(users := db.users + [User(email, fullName, true)]), Ok(|db.users|))
  }

  function CreateOrganization(db: Tables, ownerId: nat, name: string): Response {
    var orgId := |db.orgs|;
    Response(
      db.(orgs := db.orgs + [Organization(name, "free")],
          members := db.members + [OrgMember(orgId, ownerId, Owner)]),
      Ok(orgId))
  }

  function InviteMember(db: Tables, orgId: nat, email: string, role: OrgRole): Response {
    var user := FindUser(db.users, email);
    if user.None? then Response(db, Err(NotFound))
    else if FindMember(db.members, orgId, user.value).Some? then Response(db, Err(Conflict))
    else Response(db.(members := db.members + [OrgMember(orgId, user.value, role)]), Ok(|db.members|))
  }
}

/** Projects (app/services/project_service.py). */
module ProjectService {
  import opened Models

  /** The body of POST /projects. */
  datatype ProjectCreate = ProjectCreate(
    name: string, status: ProjectStatus, startDate: Option<int>, targetDate: Option<int>)

  function CreateProject(db: Tables, orgId: nat, body: ProjectCreate): Response {
    var project := Project(orgId, body.name, body.status, body.startDate, body.targetDate);
    Response(db.(projects := db.projects + [project]), Ok(|db.projects|))
  }
}

/** Labels and their attachment to tasks (app/services/label_service.py). */
module LabelService {
  import opened Models

  /** A commit adding a label fails on the (org, name) constraint, which the service reports as a conflict. */
  function CreateLabel(db: Tables, orgId: nat, name: string, color: string): Response {
    if FindFirst(db.labels, (l: Label) => l.orgId == orgId && l.name == name).Some? then Response(db, Err(Conflict))
    else Response(db.(labels := db.labels + [Label(orgId, name, color)]), Ok(|db.labels|))
  }

  function FindTaskLabel(rows: seq<TaskLabel>, taskId: nat, labelId: nat): (r: Option<nat>)
    ensures r.Some? ==> r.value < |rows| && rows[r.value] == TaskLabel(taskId, labelId)
    ensures r.None? ==> TaskLabel(taskId, labelId) !in rows
  {
    FindFirst(rows, (r: TaskLabel) => r == TaskLabel(taskId, labelId))
  }

  function AttachLabel(db: Tables, taskId: nat, labelId: nat): Response {
    if FindTaskLabel(db.taskLabels, taskId, labelId).Some? then Response(db, Ok(labelId))
    else Response(db.(taskLabels := db.taskLabels + [TaskLabel(taskId, labelId)]), Ok(labelId))
  }

  function WithoutRow<T>(rows: seq<T>, i: nat): seq<T>
    requires i < |rows|
  {
    rows[..i] + rows[i + 1..]
  }

  function DetachLabel(db: Tables, taskId: nat, labelId: nat): Response {
    var existing := FindTaskLabel(db.taskLabels, taskId, labelId);
    if existing.None? then Response(db, Ok(labelId))
    else Response(db.(taskLabels := WithoutRow(db.taskLabels, existing.value)), Ok(labelId))
  }
}
