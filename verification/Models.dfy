/** The tables of the database and the rows in them (app/models).

    A table is a sequence in the order in which its rows were committed; the id
    of a row is its position.  A fresh id is therefore the length of the table. */
module Models {

  datatype Option<+T> = None | Some(value: T)

  datatype OrgRole = Member | Manager | Admin | Owner

  datatype ProjectStatus = Planning | Active | OnHold | Completed

  datatype TaskStatus = Backlog | Todo | InProgress | InReview | Done

  datatype TaskPriority = Low | Medium | High | Urgent

  datatype ApprovalStatus = Pending | Approved | Rejected

  datatype User = User(email: string, fullName: string, active: bool)

  datatype Organization = Organization(name: string, plan: string)

  datatype OrgMember = OrgMember(orgId: nat, userId: nat, role: OrgRole)

  datatype Project = Project(
    orgId: nat, name: string, status: ProjectStatus, startDate: Option<int>, targetDate: Option<int>)

  /** The six columns a PATCH can assign are nullable here, as they are in an ORM instance
      before the commit; `NotNull` is the constraint the commit checks. */
  datatype Task = Task(
    projectId: nat,
    reporterId: nat,
    title: Option<string>,
    description: Option<string>,
    status: Option<TaskStatus>,
    priority: Option<TaskPriority>,
    assigneeId: Option<nat>,
    dueDate: Option<int>)
  {
    predicate IsDone() {
      status == Some(Done)
    }

    predicate NotNull() {
      title.Some? && status.Some? && priority.Some?
    }
  }

  datatype Approval = Approval(
    taskId: nat,
    requestedBy: nat,
    status: ApprovalStatus,
    reviewedBy: Option<nat>,
    reviewedAt: Option<int>,
    notes: Option<string>)
  {
    predicate PendingFor(t: nat) {
      taskId == t && status.Pending?
    }
  }

  datatype Label = Label(orgId: nat, name: string, color: string)

  datatype TaskLabel = TaskLabel(taskId: nat, labelId: nat)

  datatype Tables = Tables(
    users: seq<User>,
    orgs: seq<Organization>,
    members: seq<OrgMember>,
    projects: seq<Project>,
    tasks: seq<Task>,
    approvals: seq<Approval>,
    labels: seq<Label>,
    taskLabels: seq<TaskLabel>)

  const EMPTY_TABLES := Tables([], [], [], [], [], [], [], [])

  /** Why a request is refused: the HTTP status the endpoint answers with.  `CommitFailed` is a
      constraint violation at commit that no handler catches. */
  datatype Error = Unauthorized | Forbidden | NotFound | Conflict | BadRequest | CommitFailed

  /** `Ok` carries the id of the row the endpoint answers with. */
  datatype Outcome = Ok(row: nat) | Err(error: Error)

  datatype Response = Response(tables: Tables, outcome: Outcome)

  /** The position of the first row satisfying `p`: a single-row SELECT. */
  function FindFirst<T>(rows: seq<T>, p: T -> bool): (r: Option<nat>)
    ensures r.Some? ==>
              && r.value < |rows|
              && p(rows[r.value])
              && forall j :: 0 <= j < r.value ==> !p(rows[j])
    ensures r.None? ==> forall j :: 0 <= j < |rows| ==> !p(rows[j])
  {
    if rows == [] then None
    else
      var n := |rows| - 1;
      var earlier := FindFirst(rows[..n], p);
      if earlier.Some? then earlier
      else if p(rows[n]) then Some(n)
      else None
  }
}
