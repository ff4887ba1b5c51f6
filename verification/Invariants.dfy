/** What holds of the tables in every reachable state. */
module Invariants {
  import opened Models
  import opened Deps
  import opened ApprovalService
  import opened TaskService
  import opened LabelService
  import opened Api
  import opened Runs

  /** Every foreign key points at a row, and every NOT NULL column is set. */
  ghost predicate ForeignKeys(db: Tables) {
    && (forall k :: 0 <= k < |db.members| ==> db.members[k].orgId < |db.orgs| && db.members[k].userId < |db.users|)
    && (forall p :: 0 <= p < |db.projects| ==> db.projects[p].orgId < |db.orgs|)
    && (forall t :: 0 <= t < |db.tasks| ==>
          db.tasks[t].projectId < |db.projects| && db.tasks[t].reporterId < |db.users| && Storable(db, db.tasks[t]))
    && (forall i :: 0 <= i < |db.approvals| ==>
          db.approvals[i].taskId < |db.tasks| && db.approvals[i].requestedBy < |db.users|)
    && (forall l :: 0 <= l < |db.labels| ==> db.labels[l].orgId < |db.orgs|)
  }

  ghost predicate AllActive(db: Tables) {
    forall u :: 0 <= u < |db.users| ==> db.users[u].active
  }

  /** The references are sound, and as no endpoint deactivates a user every user is active. */
  ghost predicate Referential(db: Tables) {
    ForeignKeys(db) && AllActive(db)
  }

  /** The unique constraints on accounts: emails, and one membership per user and org. */
  ghost predicate UniqueAccounts(db: Tables) {
    && (forall i, j :: 0 <= i < j < |db.users| ==> db.users[i].email != db.users[j].email)
    && (forall i, j :: 0 <= i < j < |db.members| ==>
          !(db.members[i].orgId == db.members[j].orgId && db.members[i].userId == db.members[j].userId))
  }

  /** The unique constraints on labels: names in an org, and the primary key of task_labels. */
  ghost predicate UniqueLabels(db: Tables) {
    && (forall i, j :: 0 <= i < j < |db.labels| ==>
          !(db.labels[i].orgId == db.labels[j].orgId && db.labels[i].name == db.labels[j].name))
    && (forall i, j :: 0 <= i < j < |db.taskLabels| ==> db.taskLabels[i] != db.taskLabels[j])
  }

  /** Only the newest approval row of a task can be pending; so a task has at most one. */
  ghost predicate PendingIsNewest(db: Tables) {
    forall i, j :: 0 <= i < j < |db.approvals| && db.approvals[i].taskId == db.approvals[j].taskId ==>
                     !db.approvals[i].status.Pending?
  }

  ghost predicate PendingIsNotDone(db: Tables) {
    forall i :: 0 <= i < |db.approvals| && db.approvals[i].status.Pending? && db.approvals[i].taskId < |db.tasks| ==>
                  !db.tasks[db.approvals[i].taskId].IsDone()
  }

  /** `userId` holds Manager or higher in the org that owns the task's project. */
  predicate Manages(db: Tables, userId: nat, taskId: nat) {
    && taskId < |db.tasks|
    && db.tasks[taskId].projectId < |db.projects|
    && HasRole(db.members, db.projects[db.tasks[taskId].projectId].orgId, userId, Manager)
  }

  /** A row is undecided and unsigned, or decided and signed by someone who manages its task. */
  ghost predicate Signed(db: Tables, row: Approval) {
    if row.status.Pending? then row.reviewedBy.None? && row.reviewedAt.None? && row.notes.None?
    else row.reviewedBy.Some? && row.reviewedAt.Some? && Manages(db, row.reviewedBy.value, row.taskId)
  }

  ghost predicate AllSigned(db: Tables) {
    forall i :: 0 <= i < |db.approvals| ==> Signed(db, db.approvals[i])
  }

  ghost predicate IsNewest(approvals: seq<Approval>, taskId: nat, i: nat) {
    && i < |approvals|
    && approvals[i].taskId == taskId
    && forall j :: i < j < |approvals| ==> approvals[j].taskId != taskId
  }

  /** The newest approval row of a Done task is APPROVED. */
  ghost predicate DoneIsApproved(db: Tables) {
    forall i: nat, t: nat :: t < |db.tasks| && db.tasks[t].IsDone() && IsNewest(db.approvals, t, i) ==>
                               db.approvals[i].status.Approved?
  }

  /** Tenant isolation: an attached label belongs to the org that owns the task's project. */
  ghost predicate Isolated(db: Tables) {
    forall k :: 0 <= k < |db.taskLabels| ==>
                  && db.taskLabels[k].taskId < |db.tasks|
                  && LabelInTasksOrg(db, db.taskLabels[k].taskId, db.taskLabels[k].labelId)
  }

  ghost predicate HasOwner(db: Tables, orgId: nat) {
    exists k :: 0 <= k < |db.members| && db.members[k].orgId == orgId && db.members[k].role == Owner
  }

  ghost predicate Owned(db: Tables) {
    forall o :: 0 <= o < |db.orgs| ==> HasOwner(db, o)
  }

  /** The part of the invariant that does not depend on requests being served one at a time. */
  ghost predicate Core(db: Tables) {
    && Referential(db)
    && UniqueAccounts(db)
    && UniqueLabels(db)
    && AllSigned(db)
    && Isolated(db)
    && Owned(db)
  }

  ghost predicate Inv(db: Tables) {
    && Core(db)
    && PendingIsNewest(db)
    && PendingIsNotDone(db)
    && DoneIsApproved(db)
  }

  predicate IsOrgOp(op: Op) {
    op.Register? || op.CreateOrg? || op.Invite? || op.AddProject? || op.AddLabel?
  }

  lemma AccountOpKeepsReferential(db: Tables, req: Req)
    requires Referential(db) && Refusal(db, req).None?
    requires req.op.Register? || req.op.CreateOrg? || req.op.Invite?
    ensures Referential(Serve(db, req).tables)
  {
  }

  lemma OrgRowKeepsReferential(db: Tables, req: Req)
    requires Referential(db) && Refusal(db, req).None?
    requires req.op.AddProject? || req.op.AddLabel?
    ensures Referential(Serve(db, req).tables)
  {
  }

  lemma OrgOpKeepsReferential(db: Tables, req: Req)
    requires Referential(db) && Refusal(db, req).None? && IsOrgOp(req.op)
    ensures Referential(Serve(db, req).tables)
  {
    hide Refusal, Serve, Referential;
    match req.op
    case AddProject(_, _) => OrgRowKeepsReferential(db, req);
    case AddLabel(_, _, _) => OrgRowKeepsReferential(db, req);
    case _ => AccountOpKeepsReferential(db, req);
  }

  lemma AddTaskKeepsReferential(db: Tables, projectId: nat, reporterId: nat, body: TaskCreate)
    requires Referential(db) && projectId < |db.projects| && reporterId < |db.users|
    ensures Referential(CreateTask(db, projectId, reporterId, body).tables)
  {
  }

  lemma PatchKeepsReferential(db: Tables, taskId: nat, updates: Updates)
    requires Referential(db) && taskId < |db.tasks|
    ensures Referential(UpdateTask(db, taskId, updates).tables)
  {
  }

  lemma RequestKeepsReferential(db: Tables, taskId: nat, requestedBy: nat)
    requires Referential(db) && taskId < |db.tasks| && requestedBy < |db.users|
    ensures Referential(RequestApproval(db, taskId, requestedBy).tables)
  {
  }

  lemma DecisionKeepsReferential(
    db: Tables, taskId: nat, verdict: ApprovalStatus, reviewer: nat, notes: Option<string>, now: int)
    requires Referential(db) && taskId < |db.tasks|
    ensures Referential(Decide(db, taskId, verdict, reviewer, notes, now).tables)
  {
  }

  lemma StepKeepsReferential(db: Tables, req: Req)
    requires Referential(db)
    ensures Referential(Handle(db, req).tables)
  {
    if Refusal(db, req).None? {
      if req.op.Patch? {
        PatchKeepsReferential(db, req.op.taskId, req.op.updates);
      } else if req.op.Request? {
        RequestKeepsReferential(db, req.op.taskId, req.caller);
      } else if Decides(req.op) {
        var verdict := if req.op.Approve? then Approved else Rejected;
        DecisionKeepsReferential(db, req.op.taskId, verdict, req.caller, req.op.notes, req.op.now);
      } else if IsOrgOp(req.op) {
        OrgOpKeepsReferential(db, req);
      } else if req.op.AddTask? {
        AddTaskKeepsReferential(db, req.op.projectId, req.caller, req.op.body);
      }
    }
  }

  lemma StepKeepsUniqueAccounts(db: Tables, req: Req)
    requires Referential(db) && UniqueAccounts(db)
    ensures UniqueAccounts(Handle(db, req).tables)
  {
  }

  lemma DetachKeepsUnique(db: Tables, t: nat, l: nat)
    requires UniqueLabels(db)
    ensures UniqueLabels(DetachLabel(db, t, l).tables)
  {
  }

  lemma AttachKeepsUnique(db: Tables, t: nat, l: nat)
    requires UniqueLabels(db)
    ensures UniqueLabels(AttachLabel(db, t, l).tables)
  {
  }

  lemma OthersKeepUniqueLabels(db: Tables, req: Req)
    requires UniqueLabels(db) && !req.op.Attach? && !req.op.Detach?
    ensures UniqueLabels(Handle(db, req).tables)
  {
  }

  lemma StepKeepsUniqueLabels(db: Tables, req: Req)
    requires UniqueLabels(db)
    ensures UniqueLabels(Handle(db, req).tables)
  {
    hide AttachLabel, DetachLabel, UniqueLabels;
    match req.op
    case Attach(t, l) => AttachKeepsUnique(db, t, l);
    case Detach(t, l) => DetachKeepsUnique(db, t, l);
    case _ => OthersKeepUniqueLabels(db, req);
  }

  /** Only an accepted approval takes a task into Done, and it is the task's pending row it spends. */
  lemma StepIntoDone(db: Tables, req: Req, t: nat)
    requires t < |db.tasks| && !db.tasks[t].IsDone() && Handle(db, req).tables.tasks[t].IsDone()
    ensures req.op.Approve? && req.op.taskId == t && Accepts(db, req) && Manages(db, req.caller, t)
  {
  }

  /** A task id that a step brings into being comes from an accepted creation. */
  lemma StepNewTask(db: Tables, req: Req, t: nat)
    requires |db.tasks| <= t < |Handle(db, req).tables.tasks|
    ensures t == |db.tasks| && req.op.AddTask? && Accepts(db, req)
    ensures Handle(db, req).tables.tasks[t].status == Some(req.op.body.status)
  {
  }

  /** An accepted workflow call on task `t`. */
  predicate WorksOn(db: Tables, req: Req, t: nat) {
    IsWorkflow(req.op) && req.op.taskId == t && Accepts(db, req)
  }

  /** The approval rows of `t` are those before. */
  ghost predicate RowsLeft(before: seq<Approval>, after: seq<Approval>, t: nat) {
    && |before| <= |after|
    && (forall i :: 0 <= i < |before| && before[i].taskId == t ==> after[i] == before[i])
    && (forall i :: |before| <= i < |after| ==> after[i].taskId != t)
    && (forall i :: 0 <= i < |before| && after[i].taskId == t ==> before[i].taskId == t)
  }

  /** Any other request leaves the rows of `t` alone. */
  lemma StepLeavesRows(db: Tables, req: Req, t: nat)
    requires !WorksOn(db, req, t)
    ensures RowsLeft(db.approvals, Handle(db, req).tables.approvals, t)
  {
  }

  /** What an accepted workflow call leaves on its own task. */
  lemma StepOnTask(db: Tables, req: Req, t: nat)
    requires WorksOn(db, req, t)
    ensures t < |db.tasks| && (Decides(req.op) ==> Manages(db, req.caller, t))
    ensures var pending, next := FindPending(db.approvals, t), Handle(db, req).tables;
            match req.op
            case Request(_) =>
              && pending.None?
              && next.approvals == db.approvals + [NewRequest(t, req.caller)]
              && next.tasks == WithStatus(db.tasks, t, InReview)
            case Approve(_, notes, now) =>
              && pending.Some?
              && next.approvals == db.approvals[pending.value :=
                   Stamped(db.approvals[pending.value], Approved, req.caller, notes, now)]
              && next.tasks == WithStatus(db.tasks, t, Done)
            case Reject(_, notes, now) =>
              && pending.Some?
              && next.approvals == db.approvals[pending.value :=
                   Stamped(db.approvals[pending.value], Rejected, req.caller, notes, now)]
              && next.tasks == WithStatus(db.tasks, t, InProgress)
            case _ => true
  {
  }

  lemma StepKeepsPending(db: Tables, req: Req)
    requires Referential(db) && PendingIsNewest(db) && PendingIsNotDone(db)
    ensures PendingIsNewest(Handle(db, req).tables) && PendingIsNotDone(Handle(db, req).tables)
  {
    hide Handle;
    var next := Handle(db, req).tables;
    StepGrows(db, req);
    forall i | 0 <= i < |next.approvals| && next.approvals[i].status.Pending?
      ensures forall j :: i < j < |next.approvals| ==> next.approvals[j].taskId != next.approvals[i].taskId
      ensures next.approvals[i].taskId < |next.tasks| ==> !next.tasks[next.approvals[i].taskId].IsDone()
    {
      var t := next.approvals[i].taskId;
      if WorksOn(db, req, t) {
        StepOnTask(db, req, t);
      } else {
        StepLeavesRows(db, req, t);
        assert db.approvals[i] == next.approvals[i] && t < |db.tasks|;
        if next.tasks[t].IsDone() {
          StepIntoDone(db, req, t);
        }
      }
    }
  }

  lemma StepKeepsDone(db: Tables, req: Req)
    requires Referential(db) && PendingIsNewest(db) && DoneIsApproved(db)
    ensures DoneIsApproved(Handle(db, req).tables)
  {
    hide Handle;
    var next := Handle(db, req).tables;
    forall i: nat, t: nat | t < |next.tasks| && next.tasks[t].IsDone() && IsNewest(next.approvals, t, i)
      ensures next.approvals[i].status.Approved?
    {
      if WorksOn(db, req, t) {
        StepOnTask(db, req, t);
        if req.op.Approve? {
          var p := FindPending(db.approvals, t).value;
          assert next.approvals[p].taskId == t;
          assert i == p;
        }
      } else {
        StepLeavesRows(db, req, t);
        assert i < |db.approvals| && db.approvals[i] == next.approvals[i];
        assert IsNewest(db.approvals, t, i);
        if !db.tasks[t].IsDone() {
          StepIntoDone(db, req, t);
        }
      }
    }
  }

  /** With at most one pending row, whatever row a lookup returns is the one. */
  lemma PendingIsUnique(db: Tables, t: nat, i: nat)
    requires PendingIsNewest(db) && i < |db.approvals| && db.approvals[i].PendingFor(t)
    ensures FindPending(db.approvals, t) == Some(i)
  {
  }

  /** Whoever manages a task goes on managing it: neither memberships nor projects are lost. */
  lemma ManagesPersists(older: Tables, newer: Tables, userId: nat, taskId: nat)
    requires TablesGrow(older, newer)
    requires Manages(older, userId, taskId)
    ensures Manages(newer, userId, taskId)
  {
  }

  lemma SignedPersists(older: Tables, newer: Tables, row: Approval)
    requires TablesGrow(older, newer)
    requires Signed(older, row)
    ensures Signed(newer, row)
  {
  }

  lemma StepKeepsSigned(db: Tables, req: Req)
    requires AllSigned(db)
    ensures AllSigned(Handle(db, req).tables)
  {
    hide Handle;
    var next := Handle(db, req).tables;
    StepGrows(db, req);
    forall i | 0 <= i < |next.approvals| ensures Signed(next, next.approvals[i]) {
      var t := next.approvals[i].taskId;
      if i < |db.approvals| && next.approvals[i] == db.approvals[i] {
        SignedPersists(db, next, next.approvals[i]);
      } else if !WorksOn(db, req, t) {
        StepLeavesRows(db, req, t);
      } else {
        StepOnTask(db, req, t);
        if Decides(req.op) {
          assert i == FindPending(db.approvals, t).value;
          ManagesPersists(db, next, req.caller, t);
        }
        assert Signed(next, next.approvals[i]);
      }
    }
  }

  lemma StepKeepsIsolated(db: Tables, req: Req)
    requires Isolated(db)
    ensures Isolated(Handle(db, req).tables)
  {
    var next := Handle(db, req).tables;
    StepGrows(db, req);
    forall k | 0 <= k < |next.taskLabels|
      ensures next.taskLabels[k].taskId < |next.tasks|
      ensures LabelInTasksOrg(next, next.taskLabels[k].taskId, next.taskLabels[k].labelId)
    {
      var t, l := next.taskLabels[k].taskId, next.taskLabels[k].labelId;
      StepPairs(db, req, k);
      assert LabelInTasksOrg(db, t, l);
      assert SameOrigin(db.tasks[t], next.tasks[t]);
      assert next.projects[db.tasks[t].projectId] == db.projects[db.tasks[t].projectId];
      assert next.labels[l] == db.labels[l];
    }
  }

  /** A pair attached after a step was attached before it, or has just passed the org check. */
  lemma StepPairs(db: Tables, req: Req, k: nat)
    requires k < |Handle(db, req).tables.taskLabels|
    ensures var pair := Handle(db, req).tables.taskLabels[k];
            || pair in db.taskLabels
            || (pair.taskId < |db.tasks| && LabelInTasksOrg(db, pair.taskId, pair.labelId))
  {
  }

  lemma StepKeepsOwned(db: Tables, req: Req)
    requires Owned(db)
    ensures Owned(Handle(db, req).tables)
  {
    var next := Handle(db, req).tables;
    StepGrows(db, req);
    forall o | 0 <= o < |next.orgs| ensures HasOwner(next, o) {
      if o < |db.orgs| {
        assert HasOwner(db, o);
        var k :| 0 <= k < |db.members| && db.members[k].orgId == o && db.members[k].role == Owner;
        assert next.members[k] == db.members[k];
      } else {
        assert next.members == db.members + [OrgMember(o, req.caller, Owner)];
        assert next.members[|db.members|].orgId == o;
      }
    }
  }

  lemma StepKeepsCore(db: Tables, req: Req)
    requires Core(db)
    ensures Core(Handle(db, req).tables)
  {
    hide Handle;
    StepKeepsReferential(db, req);
    StepKeepsUniqueAccounts(db, req);
    StepKeepsUniqueLabels(db, req);
    StepKeepsSigned(db, req);
    StepKeepsIsolated(db, req);
    StepKeepsOwned(db, req);
  }

  lemma StepKeepsInv(db: Tables, req: Req)
    requires Inv(db)
    ensures Inv(Handle(db, req).tables)
  {
    hide Handle;
    StepKeepsCore(db, req);
    StepKeepsPending(db, req);
    StepKeepsDone(db, req);
  }

  lemma {:induction false} RunFromKeepsInv(db: Tables, reqs: seq<Req>)
    requires Inv(db)
    ensures Inv(RunFrom(db, reqs))
  {
    hide Handle;
    if reqs != [] {
      var n := |reqs| - 1;
      RunFromKeepsInv(db, reqs[..n]);
      StepKeepsInv(RunFrom(db, reqs[..n]), reqs[n]);
    }
  }

  lemma RunInv(reqs: seq<Req>)
    ensures Inv(Run(reqs))
  {
    RunFromKeepsInv(EMPTY_TABLES, reqs);
  }

  lemma RunPending(reqs: seq<Req>)
    ensures PendingIsNewest(Run(reqs))
  {
    RunInv(reqs);
  }
}
