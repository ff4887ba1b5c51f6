/** The service as it runs: the database, an object whose tables the services change in place, and the
    application, which owns one and lets requests at it through the endpoints only. */
module Store {
  import opened Models
  import opened Deps
  import A = ApprovalService
  import opened TaskService
  import O = OrgService
  import P = ProjectService
  import L = LabelService
  import Labels
  import opened Api
  import opened Invariants
  import opened Patches
  import opened Acceptance

  /** `order` lists the keys of the patch once each: the iteration order of the dict. */
  ghost predicate Enumerates(order: seq<Field>, updates: Updates) {
    && (forall i :: 0 <= i < |order| ==> order[i] in updates)
    && (forall f :: f in updates ==> f in order)
    && (forall i, j :: 0 <= i < j < |order| ==> order[i] != order[j])
  }

  ghost function Only(updates: Updates, fields: seq<Field>): Updates {
    map f | f in updates && f in fields :: updates[f]
  }

  lemma SetAttrIsOneKey(task: Task, updates: Updates, f: Field, v: Value)
    requires Fits(f, v)
    ensures SetAttr(Override(task, updates), f, v) == Override(task, updates[f := v])
  {
  }

  /** One more assignment is one more key. */
  lemma AssignOne(task: Task, updates: Updates, order: seq<Field>, n: nat)
    requires n < |order| && order[n] in updates
    ensures SetAttr(Override(task, Only(updates, order[..n])), order[n], updates[order[n]])
            == Override(task, Only(updates, order[..n + 1]))
  {
    hide Override, SetAttr;
    assert order[..n + 1] == order[..n] + [order[n]];
    assert Only(updates, order[..n + 1]) == Only(updates, order[..n])[order[n] := updates[order[n]]];
    SetAttrIsOneKey(task, Only(updates, order[..n]), order[n], updates[order[n]]);
  }

  /** What a column reads once the patch is assigned. */
  function Reads(task: Task, updates: Updates, f: Field): Value {
    if f in updates then updates[f] else GetAttr(task, f)
  }

  lemma StorableReads(db: Tables, task: Task)
    ensures Storable(db, task)
            <==> && GetAttr(task, TitleField) != Null
                 && GetAttr(task, StatusField) != Null
                 && GetAttr(task, PriorityField) != Null
                 && var assignee := GetAttr(task, AssigneeField);
                    assignee.UserRef? ==> assignee.user < |db.users|
  {
  }

  lemma NothingAssigned(task: Task, updates: Updates, order: seq<Field>)
    ensures Override(task, Only(updates, order[..0])) == task
  {
    assert Only(updates, order[..0]) == map[];
  }

  lemma EverythingAssigned(updates: Updates, order: seq<Field>)
    requires Enumerates(order, updates)
    ensures Only(updates, order[..|order|]) == updates
  {
    assert order[..|order|] == order;
    assert Only(updates, order) == updates;
  }

  class Database {
    var users: seq<User>
    var orgs: seq<Organization>
    var members: seq<OrgMember>
    var projects: seq<Project>
    var tasks: seq<Task>
    var approvals: seq<Approval>
    var labels: seq<Label>
    var taskLabels: seq<TaskLabel>

    function View(): Tables
      reads this
    {
      Tables(users, orgs, members, projects, tasks, approvals, labels, taskLabels)
    }

    constructor ()
      ensures View() == EMPTY_TABLES
    {
      users, orgs, members, projects, tasks := [], [], [], [], [];
      approvals, labels, taskLabels := [], [], [];
    }

    // ---------- app/services/approval_service.py ----------

    method RequestApproval(taskId: nat, requestedBy: nat) returns (r: Outcome)
      requires taskId < |tasks|
      modifies this`approvals, this`tasks
      ensures Response(View(), r) == A.RequestApproval(old(View()), taskId, requestedBy)
      ensures r.Err? <==> exists i :: 0 <= i < |old(approvals)| && old(approvals)[i].PendingFor(taskId)
      ensures r == if r.Err? then Err(Conflict) else Ok(|old(approvals)|)
      ensures r.Err? ==> unchanged(this)
      ensures r.Ok? ==>
                && approvals == old(approvals) + [Approval(taskId, requestedBy, Pending, None, None, None)]
                && tasks == old(tasks)[taskId := old(tasks)[taskId].(status := Some(InReview))]
    {
      var pending := A.FindPending(approvals, taskId);
      if pending.Some? {
        return Err(Conflict);
      }
      var approval := A.NewRequest(taskId, requestedBy);
      r := Ok(|approvals|);
      approvals := approvals + [approval];
      tasks := tasks[taskId := tasks[taskId].(status := Some(InReview))];
    }

    method ApproveTask(taskId: nat, reviewerId: nat, notes: Option<string>, now: int) returns (r: Outcome)
      requires taskId < |tasks|
      modifies this`approvals, this`tasks
      ensures Response(View(), r) == A.Decide(old(View()), taskId, Approved, reviewerId, notes, now)
      ensures r.Ok? <==> exists i :: 0 <= i < |old(approvals)| && old(approvals)[i].PendingFor(taskId)
      ensures r.Err? ==> r == Err(Conflict) && unchanged(this)
      ensures r.Ok? ==>
                && r.row < |old(approvals)| && old(approvals)[r.row].PendingFor(taskId)
                && approvals == old(approvals)[r.row :=
                     Approval(taskId, old(approvals)[r.row].requestedBy, Approved, Some(reviewerId), Some(now), notes)]
                && tasks == old(tasks)[taskId := old(tasks)[taskId].(status := Some(Done))]
    {
      var pending := A.FindPending(approvals, taskId);
      if pending.None? {
        return Err(Conflict);
      }
      var i := pending.value;
      approvals := approvals[i := approvals[i].(status := Approved)];
      approvals := approvals[i := approvals[i].(reviewedBy := Some(reviewerId))];
      approvals := approvals[i := approvals[i].(reviewedAt := Some(now))];
      approvals := approvals[i := approvals[i].(notes := notes)];
      tasks := tasks[taskId := tasks[taskId].(status := Some(Done))];
      r := Ok(i);
    }

    method RejectTask(taskId: nat, reviewerId: nat, notes: Option<string>, now: int) returns (r: Outcome)
      requires taskId < |tasks|
      modifies this`approvals, this`tasks
      ensures Response(View(), r) == A.Decide(old(View()), taskId, Rejected, reviewerId, notes, now)
      ensures r.Ok? <==> exists i :: 0 <= i < |old(approvals)| && old(approvals)[i].PendingFor(taskId)
      ensures r.Err? ==> r == Err(Conflict) && unchanged(this)
      ensures r.Ok? ==>
                && r.row < |old(approvals)| && old(approvals)[r.row].PendingFor(taskId)
                && approvals == old(approvals)[r.row :=
                     Approval(taskId, old(approvals)[r.row].requestedBy, Rejected, Some(reviewerId), Some(now), notes)]
                && tasks == old(tasks)[taskId := old(tasks)[taskId].(status := Some(InProgress))]
    {
      var pending := A.FindPending(approvals, taskId);
      if pending.None? {
        return Err(Conflict);
      }
      var i := pending.value;
      approvals := approvals[i := approvals[i].(status := Rejected)];
      approvals := approvals[i := approvals[i].(reviewedBy := Some(reviewerId))];
      approvals := approvals[i := approvals[i].(reviewedAt := Some(now))];
      approvals := approvals[i := approvals[i].(notes := notes)];
      tasks := tasks[taskId := tasks[taskId].(status := Some(InProgress))];
      r := Ok(i);
    }

    // ---------- app/services/task_service.py ----------

    method CreateTask(projectId: nat, reporterId: nat, body: TaskCreate) returns (r: Outcome)
      modifies this`tasks
      ensures Response(View(), r) == TaskService.CreateTask(old(View()), projectId, reporterId, body)
      ensures r.Ok? <==> body.assigneeId.None? || body.assigneeId.value < |users|
      ensures r == if r.Ok? then Ok(|old(tasks)|) else Err(CommitFailed)
      ensures r.Err? ==> unchanged(this)
      ensures r.Ok? ==> tasks == old(tasks) + [
                Task(projectId, reporterId, Some(body.title), body.description, Some(body.status),
                     Some(body.priority), body.assigneeId, body.dueDate)]
    {
      var task := NewTask(projectId, reporterId, body);
      if !Storable(View(), task) {
        return Err(CommitFailed);
      }
      r := Ok(|tasks|);
      tasks := tasks + [task];
    }

    /** The setattr loop, in whatever order the dict yields its keys, then the commit. */
    method UpdateTask(taskId: nat, updates: Updates, order: seq<Field>) returns (r: Outcome)
      requires taskId < |tasks| && Enumerates(order, updates)
      modifies this`tasks
      ensures Response(View(), r) == TaskService.UpdateTask(old(View()), taskId, updates)
      ensures r == if r.Ok? then Ok(taskId) else Err(CommitFailed)
      ensures r.Ok? <==> && Reads(old(tasks)[taskId], updates, TitleField) != Null
                         && Reads(old(tasks)[taskId], updates, StatusField) != Null
                         && Reads(old(tasks)[taskId], updates, PriorityField) != Null
                         && var assignee := Reads(old(tasks)[taskId], updates, AssigneeField);
                            assignee.UserRef? ==> assignee.user < |users|
      ensures r.Err? ==> unchanged(this)
      ensures |tasks| == |old(tasks)| && forall t :: 0 <= t < |tasks| && t != taskId ==> tasks[t] == old(tasks)[t]
      ensures tasks[taskId].projectId == old(tasks)[taskId].projectId
      ensures tasks[taskId].reporterId == old(tasks)[taskId].reporterId
      ensures r.Ok? ==> forall f :: GetAttr(tasks[taskId], f) == Reads(old(tasks)[taskId], updates, f)
    {
      hide Override, SetAttr, GetAttr;
      var task := tasks[taskId];
      NothingAssigned(task, updates, order);
      for n := 0 to |order|
        invariant tasks == old(tasks)
        invariant task == Override(tasks[taskId], Only(updates, order[..n]))
      {
        AssignOne(tasks[taskId], updates, order, n);
        task := SetAttr(task, order[n], updates[order[n]]);
      }
      EverythingAssigned(updates, order);
      forall f ensures GetAttr(task, f) == Reads(tasks[taskId], updates, f) {
        PatchReads(tasks[taskId], updates, f);
      }
      PatchReads(tasks[taskId], updates, TitleField);
      StorableReads(View(), task);
      if !Storable(View(), task) {
        return Err(CommitFailed);
      }
      tasks := tasks[taskId := task];
      r := Ok(taskId);
    }

    // ---------- app/services/auth_service.py, org_service.py, project_service.py ----------

    method RegisterUser(email: string, fullName: string) returns (r: Outcome)
      modifies this`users
      ensures Response(View(), r) == O.RegisterUser(old(View()), email, fullName)
      ensures r.Ok? <==> forall u :: 0 <= u < |old(users)| ==> old(users)[u].email != email
      ensures r == if r.Ok? then Ok(|old(users)|) else Err(Conflict)
      ensures users == old(users) + if r.Ok? then [User(email, fullName, true)] else []
    {
      var existing := O.FindUser(users, email);
      if existing.Some? {
        return Err(Conflict);
      }
      r := Ok(|users|);
      users := users + [User(email, fullName, true)];
    }

    method CreateOrganization(ownerId: nat, name: string) returns (r: Outcome)
      modifies this`orgs, this`members
      ensures Response(View(), r) == O.CreateOrganization(old(View()), ownerId, name)
      ensures r == Ok(|old(orgs)|)
      ensures orgs == old(orgs) + [Organization(name, "free")]
      ensures members == old(members) + [OrgMember(|old(orgs)|, ownerId, Owner)]
    {
      var orgId := |orgs|;
      orgs := orgs + [Organization(name, "free")];
      members := members + [OrgMember(orgId, ownerId, Owner)];
      r := Ok(orgId);
    }

    method InviteMember(orgId: nat, email: string, role: OrgRole) returns (r: Outcome)
      modifies this`members
      ensures Response(View(), r) == O.InviteMember(old(View()), orgId, email, role)
      ensures r == Err(NotFound) <==> forall u :: 0 <= u < |users| ==> users[u].email != email
      ensures r.Err? ==> members == old(members) && (r == Err(NotFound) || r == Err(Conflict))
      ensures r == Err(Conflict) ==> exists u: nat, k: nat ::
                u < |users| && users[u].email == email
                && k < |members| && members[k].orgId == orgId && members[k].userId == u
      ensures r.Ok? ==> r == Ok(|old(members)|) && exists u: nat ::
                u < |users| && users[u].email == email
                && members == old(members) + [OrgMember(orgId, u, role)]
                && forall k :: 0 <= k < |old(members)| ==>
                     !(old(members)[k].orgId == orgId && old(members)[k].userId == u)
    {
      var user := O.FindUser(users, email);
      if user.None? {
        return Err(NotFound);
      }
      var existing := FindMember(members, orgId, user.value);
      if existing.Some? {
        return Err(Conflict);
      }
      r := Ok(|members|);
      members := members + [OrgMember(orgId, user.value, role)];
    }

    method CreateProject(orgId: nat, body: P.ProjectCreate) returns (r: Outcome)
      modifies this`projects
      ensures Response(View(), r) == P.CreateProject(old(View()), orgId, body)
      ensures r == Ok(|old(projects)|)
      ensures projects == old(projects) + [Project(orgId, body.name, body.status, body.startDate, body.targetDate)]
    {
      r := Ok(|projects|);
      projects := projects + [Project(orgId, body.name, body.status, body.startDate, body.targetDate)];
    }

    // ---------- app/services/label_service.py ----------

    method CreateLabel(orgId: nat, name: string, color: string) returns (r: Outcome)
      modifies this`labels
      ensures Response(View(), r) == L.CreateLabel(old(View()), orgId, name, color)
      ensures r.Err? <==> exists l :: l in old(labels) && l.orgId == orgId && l.name == name
      ensures r == if r.Ok? then Ok(|old(labels)|) else Err(Conflict)
      ensures labels == old(labels) + if r.Ok? then [Label(orgId, name, color)] else []
    {
      var before := labels;
      labels := labels + [Label(orgId, name, color)];
      if exists l <- before :: l.orgId == orgId && l.name == name {
        labels := before;
        return Err(Conflict);
      }
      r := Ok(|before|);
    }

    method AttachLabel(taskId: nat, labelId: nat) returns (r: Outcome)
      modifies this`taskLabels
      ensures Response(View(), r) == L.AttachLabel(old(View()), taskId, labelId)
      ensures r == Ok(labelId)
      ensures TaskLabel(taskId, labelId) in taskLabels
      ensures |taskLabels| == |old(taskLabels)| + if TaskLabel(taskId, labelId) in old(taskLabels) then 0 else 1
      ensures forall pair :: pair != TaskLabel(taskId, labelId) ==> (pair in taskLabels <==> pair in old(taskLabels))
    {
      var existing := L.FindTaskLabel(taskLabels, taskId, labelId);
      if existing.None? {
        taskLabels := taskLabels + [TaskLabel(taskId, labelId)];
      }
      r := Ok(labelId);
    }

    method DetachLabel(taskId: nat, labelId: nat) returns (r: Outcome)
      modifies this`taskLabels
      ensures Response(View(), r) == L.DetachLabel(old(View()), taskId, labelId)
      ensures r == Ok(labelId)
      ensures multiset(taskLabels) == multiset(old(taskLabels)) - multiset{TaskLabel(taskId, labelId)}
    {
      var existing := L.FindTaskLabel(taskLabels, taskId, labelId);
      if existing.Some? {
        Labels.WithoutRowCounts(taskLabels, existing.value);
        taskLabels := L.WithoutRow(taskLabels, existing.value);
      }
      r := Ok(labelId);
    }

    // ---------- One service call of each kind ----------

    /** The services of the approval workflow. */
    method CallWorkflow(req: Req) returns (r: Outcome)
      requires IsWorkflow(req.op) && req.op.taskId < |tasks|
      modifies this`tasks, this`approvals
      ensures Response(View(), r) == Api.Serve(old(View()), req)
    {
      hide A.RequestApproval, A.Decide;
      match req.op
      case Request(t) => r := RequestApproval(t, req.caller);
      case Approve(t, notes, now) => r := ApproveTask(t, req.caller, notes, now);
      case Reject(t, notes, now) => r := RejectTask(t, req.caller, notes, now);
    }

    /** The services of the other endpoints that name a task. */
    method CallTaskService(req: Req, order: seq<Field>) returns (r: Outcome)
      requires NamesTask(req.op) && !IsWorkflow(req.op) && req.op.taskId < |tasks|
      requires req.op.Patch? ==> Enumerates(order, req.op.updates)
      modifies this`tasks, this`taskLabels
      ensures Response(View(), r) == Api.Serve(old(View()), req)
    {
      hide TaskService.UpdateTask, L.AttachLabel, L.DetachLabel, Reads, GetAttr;
      match req.op
      case Patch(t, updates) => r := UpdateTask(t, updates, order);
      case Attach(t, l) => r := AttachLabel(t, l);
      case Detach(t, l) => r := DetachLabel(t, l);
    }

    /** The services of the others. */
    method CallOtherService(req: Req) returns (r: Outcome)
      requires !NamesTask(req.op)
      modifies this`users, this`orgs, this`members, this`projects, this`tasks, this`labels
      ensures Response(View(), r) == Api.Serve(old(View()), req)
    {
      hide O.RegisterUser, O.CreateOrganization, O.InviteMember, P.CreateProject, TaskService.CreateTask, L.CreateLabel;
      match req.op
      case Register(email, fullName) => r := RegisterUser(email, fullName);
      case CreateOrg(name) => r := CreateOrganization(req.caller, name);
      case Invite(orgId, email, role) => r := InviteMember(orgId, email, role);
      case AddProject(orgId, body) => r := CreateProject(orgId, body);
      case AddTask(projectId, body) => r := CreateTask(projectId, req.caller, body);
      case AddLabel(orgId, name, color) => r := CreateLabel(orgId, name, color);
    }
  }

  /** The endpoints (app/api/v1) in front of one database. */
  class Application {
    const db: Database

    /** The requests served so far. */
    ghost var history: seq<Req>

    /** The tables are what serving the history from an empty database leaves; so everything proved
        of `Run` holds of every valid object. */
    ghost predicate Valid()
      reads this, db
    {
      db.View() == Run(history)
    }

    /** Every invariant of the reachable states holds of every valid object. */
    lemma ValidMeansInvariant()
      requires Valid()
      ensures Inv(db.View())
    {
      RunInv(history);
    }

    constructor ()
      ensures Valid() && fresh(db) && history == []
    {
      db := new Database();
      history := [];
    }

    /** Serve one request: gate and guard, then the service. */
    method Serve(req: Req, order: seq<Field>) returns (r: Outcome)
      requires Valid()
      requires req.op.Patch? ==> Enumerates(order, req.op.updates)
      modifies this, db
      ensures Valid() && history == old(history) + [req]
      ensures Response(db.View(), r) == Handle(old(db.View()), req)
      ensures Meets(old(db.View()), req, Response(db.View(), r))
    {
      hide Api.Serve, Meets;
      AnsweredExactly(history, req);
      var refusal := Refusal(db.View(), req);
      if refusal.Some? {
        r := Err(refusal.value);
      } else {
        if IsWorkflow(req.op) {
          r := db.CallWorkflow(req);
        } else if NamesTask(req.op) {
          r := db.CallTaskService(req, order);
        } else {
          r := db.CallOtherService(req);
        }
      }
      history := history + [req];
      assert history[..|history| - 1] == old(history);
    }
  }
}
