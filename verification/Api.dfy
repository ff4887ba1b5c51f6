/** The state-changing endpoints: gate, guard and service (app/api/v1).  `Handle` is one request
    served on its own; `Run` serves a list of requests from an empty database. */
module Api {
  import opened Models
  import opened Deps
  import opened ApprovalService
  import opened TaskService
  import opened OrgService
  import opened ProjectService
  import opened LabelService

  /** The bodies of the endpoints.  `now` is the application clock read while deciding. */
  datatype Op =
    | Register(email: string, fullName: string)
    | CreateOrg(name: string)
    | Invite(orgId: nat, email: string, role: OrgRole)
    | AddProject(orgId: nat, project: ProjectCreate)
    | AddTask(projectId: nat, body: TaskCreate)
    | Patch(taskId: nat, updates: Updates)
    | Request(taskId: nat)
    | Approve(taskId: nat, notes: Option<string>, now: int)
    | Reject(taskId: nat, notes: Option<string>, now: int)
    | AddLabel(orgId: nat, name: string, color: string)
    | Attach(taskId: nat, labelId: nat)
    | Detach(taskId: nat, labelId: nat)

  /** A request from an authenticated caller. */
  datatype Req = Req(caller: nat, op: Op)

  /** A label may be attached only to a task of the org it belongs to. */
  predicate LabelInTasksOrg(db: Tables, taskId: nat, labelId: nat)
    requires taskId < |db.tasks|
  {
    var projectId := db.tasks[taskId].projectId;
    projectId < |db.projects| && labelId < |db.labels| && db.labels[labelId].orgId == db.projects[projectId].orgId
  }

  function First(a: Option<Error>, b: Option<Error>): Option<Error> {
    if a.Some? then a else b
  }

  /** The dependencies and guards of each endpoint, in the order the endpoint resolves them: `None`
      lets the request through to its service. */
  function Refusal(db: Tables, req: Req): Option<Error> {
    match req.op
    case Register(_, _) => None
    case CreateOrg(_) => Identify(db, req.caller)
    case Invite(orgId, _, _) => OrgGate(db, orgId, req.caller, Admin)
    case AddProject(orgId, _) => OrgGate(db, orgId, req.caller, Manager)
    case AddTask(projectId, _) => First(Identify(db, req.caller), ProjectGate(db, projectId, req.caller, Member))
    case Patch(t, updates) =>
      First(TaskGate(db, t, req.caller, Member), if DirectDoneTransition(updates) then Some(BadRequest) else None)
    case Request(t) => First(Identify(db, req.caller), TaskGate(db, t, req.caller, Member))
    case Approve(t, _, _) => First(Identify(db, req.caller), TaskGate(db, t, req.caller, Manager))
    case Reject(t, _, _) => First(Identify(db, req.caller), TaskGate(db, t, req.caller, Manager))
    case AddLabel(orgId, _, _) => OrgGate(db, orgId, req.caller, Member)
    case Attach(t, l) =>
      var gate := TaskGate(db, t, req.caller, Member);
      if gate.None? && !LabelInTasksOrg(db, t, l) then Some(NotFound) else gate
    case Detach(t, _) => TaskGate(db, t, req.caller, Member)
  }

  predicate NamesTask(op: Op) {
    op.Patch? || op.Request? || op.Approve? || op.Reject? || op.Attach? || op.Detach?
  }

  predicate Decides(op: Op) {
    op.Approve? || op.Reject?
  }

  /** The approval-workflow calls. */
  predicate IsWorkflow(op: Op) {
    op.Request? || Decides(op)
  }

  /** The service call behind the gate. */
  function Serve(db: Tables, req: Req): Response
    requires NamesTask(req.op) ==> req.op.taskId < |db.tasks|
  {
    match req.op
    case Register(email, fullName) => RegisterUser(db, email, fullName)
    case CreateOrg(name) => CreateOrganization(db, req.caller, name)
    case Invite(orgId, email, role) => InviteMember(db, orgId, email, role)
    case AddProject(orgId, body) => CreateProject(db, orgId, body)
    case AddTask(projectId, body) => CreateTask(db, projectId, req.caller, body)
    case Patch(t, updates) => UpdateTask(db, t, updates)
    case Request(t) => RequestApproval(db, t, req.caller)
    case Approve(t, notes, now) => Decide(db, t, Approved, req.caller, notes, now)
    case Reject(t, notes, now) => Decide(db, t, Rejected, req.caller, notes, now)
    case AddLabel(orgId, name, color) => CreateLabel(db, orgId, name, color)
    case Attach(t, l) => AttachLabel(db, t, l)
    case Detach(t, l) => DetachLabel(db, t, l)
  }

  function Handle(db: Tables, req: Req): Response {
    var refusal := Refusal(db, req);
    if refusal.Some? then Response(db, Err(refusal.value)) else Serve(db, req)
  }

  predicate Accepts(db: Tables, req: Req) {
    Handle(db, req).outcome.Ok?
  }

  /** The tables after serving `reqs` in order from `db`. */
  function RunFrom(db: Tables, reqs: seq<Req>): Tables {
    if reqs == [] then db
    else
      var n := |reqs| - 1;
      Handle(RunFrom(db, reqs[..n]), reqs[n]).tables
  }

  /** The reachable states: the tables after serving `reqs` from an empty database. */
  function Run(reqs: seq<Req>): Tables {
    RunFrom(EMPTY_TABLES, reqs)
  }
}
