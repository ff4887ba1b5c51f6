/** What can always still be done: a pending request survives, and no task is stuck. */
module Progress {
  import opened Models
  import opened Deps
  import opened ApprovalService
  import opened Api
  import opened Runs
  import opened Invariants
  import opened AuditTrail
  import Tenancy

  /** A user who manages a task passes the gates of its workflow calls. */
  lemma ManagerPasses(db: Tables, user: nat, t: nat, op: Op)
    requires Referential(db) && user < |db.users| && Manages(db, user, t)
    requires IsWorkflow(op) && op.taskId == t
    ensures Refusal(db, Req(user, op)).None?
  {
  }

  // ---------- A pending request outlives edits ----------

  lemma {:induction false} PendingSurvives(db: Tables, reqs: seq<Req>, t: nat, i: nat)
    requires Inv(db) && i < |db.approvals| && db.approvals[i].PendingFor(t)
    requires forall k :: 0 <= k < |reqs| ==> !(Decides(reqs[k].op) && reqs[k].op.taskId == t)
    ensures var later := RunFrom(db, reqs);
            && i < |later.approvals|
            && later.approvals[i] == db.approvals[i]
            && FindPending(later.approvals, t) == Some(i)
  {
    hide Handle;
    PendingIsUnique(db, t, i);
    if reqs != [] {
      var n := |reqs| - 1;
      var mid := RunFrom(db, reqs[..n]);
      PendingSurvives(db, reqs[..n], t, i);
      RunFromKeepsInv(db, reqs[..n]);
      StepKeepsInv(mid, reqs[n]);
      if WorksOn(mid, reqs[n], t) {
        StepOnTask(mid, reqs[n], t);
      }
      StepLeavesRows(mid, reqs[n], t);
      PendingIsUnique(Handle(mid, reqs[n]).tables, t, i);
    }
  }

  /** A manager's approval and a manager's rejection of task `t` both succeed on row `i`: the row takes
      the verdict, signed by the manager; the task becomes Done or goes back to work; nothing else
      changes. */
  ghost predicate Decidable(db: Tables, t: nat, i: nat, manager: nat) {
    && t < |db.tasks| && i < |db.approvals|
    && forall notes: Option<string>, now: int ::
         && Handle(db, Req(manager, Approve(t, notes, now)))
            == Response(db.(approvals := db.approvals[i := Stamped(db.approvals[i], Approved, manager, notes, now)],
                            tasks := WithStatus(db.tasks, t, Done)), Ok(i))
         && Handle(db, Req(manager, Reject(t, notes, now)))
            == Response(db.(approvals := db.approvals[i := Stamped(db.approvals[i], Rejected, manager, notes, now)],
                            tasks := WithStatus(db.tasks, t, InProgress)), Ok(i))
  }

  lemma PendingIsDecidable(db: Tables, t: nat, i: nat, manager: nat)
    requires Referential(db) && FindPending(db.approvals, t) == Some(i)
    requires manager < |db.users| && Manages(db, manager, t)
    ensures Decidable(db, t, i, manager)
  {
    hide Refusal;
    forall notes: Option<string>, now: int
      ensures Refusal(db, Req(manager, Approve(t, notes, now))).None?
      ensures Refusal(db, Req(manager, Reject(t, notes, now))).None?
    {
      ManagerPasses(db, manager, t, Approve(t, notes, now));
      ManagerPasses(db, manager, t, Reject(t, notes, now));
    }
  }

  /** After any requests other than decisions of this task, edits of the task included, the row that
      was pending still is, and a manager can still approve it or reject it. */
  lemma PendingOutlivesEdits(before: seq<Req>, after: seq<Req>, t: nat, i: nat, manager: nat)
    requires i < |Run(before).approvals| && Run(before).approvals[i].PendingFor(t)
    requires forall k :: 0 <= k < |after| ==> !(Decides(after[k].op) && after[k].op.taskId == t)
    requires manager < |Run(before + after).users| && Manages(Run(before + after), manager, t)
    ensures Decidable(Run(before + after), t, i, manager)
    ensures Run(before + after).approvals[i] == Run(before).approvals[i]
  {
    hide Handle;
    RunFromConcat(EMPTY_TABLES, before, after);
    RunInv(before);
    PendingSurvives(Run(before), after, t, i);
    RunInv(before + after);
    PendingIsDecidable(Run(before + after), t, i, manager);
  }

  // ---------- No task is stuck ----------

  /** Ask for approval if nothing is pending, then approve. */
  function CloseOut(db: Tables, user: nat, t: nat, notes: Option<string>, now: int): (reqs: seq<Req>)
    ensures 1 <= |reqs| <= 2
  {
    (if FindPending(db.approvals, t).None? then [Req(user, Request(t))] else [])
    + [Req(user, Approve(t, notes, now))]
  }

  ghost predicate AllAccepted(db: Tables, reqs: seq<Req>) {
    forall k :: 0 <= k < |reqs| ==> Accepts(RunFrom(db, reqs[..k]), reqs[k])
  }

  /** An owner of the org that owns the task's project. */
  ghost predicate OwnsTask(db: Tables, user: nat, t: nat) {
    && TaskGate(db, t, user, Owner).None?
  }

  /** From every reachable state and for every task, the org has an owner, and that owner can close
      the task with at most two requests: both succeed and leave the task Done with its newest
      approval row approved by that owner. */
  lemma NoTaskIsStuck(reqs: seq<Req>, t: nat, notes: Option<string>, now: int)
    requires t < |Run(reqs).tasks|
    ensures exists user: nat ::
              var db := Run(reqs);
              var plan := CloseOut(db, user, t, notes, now);
              && OwnsTask(db, user, t)
              && AllAccepted(db, plan)
              && Closed(RunFrom(db, plan), t, user)
  {
    RunInv(reqs);
    var db := Run(reqs);
    var orgId := db.projects[db.tasks[t].projectId].orgId;
    assert HasOwner(db, orgId);
    var k :| 0 <= k < |db.members| && db.members[k].orgId == orgId && db.members[k].role == Owner;
    var user := db.members[k].userId;
    Tenancy.OneMembership(db, orgId, user);
    assert OwnsTask(db, user, t);
    OwnerCloses(db, user, t, notes, now);
  }

  ghost predicate Closed(db: Tables, t: nat, user: nat) {
    && t < |db.tasks|
    && db.tasks[t].IsDone()
    && exists i: nat :: IsNewest(db.approvals, t, i) && ApprovedOnRecord(db, t, i)
                        && db.approvals[i].reviewedBy == Some(user)
  }

  lemma OwnerCloses(db: Tables, user: nat, t: nat, notes: Option<string>, now: int)
    requires Inv(db) && OwnsTask(db, user, t)
    ensures AllAccepted(db, CloseOut(db, user, t, notes, now))
    ensures Closed(RunFrom(db, CloseOut(db, user, t, notes, now)), t, user)
  {
    hide Handle, Closed, OwnsTask, Inv;
    var approve := Req(user, Approve(t, notes, now));
    assert [approve][..0] == [];
    if FindPending(db.approvals, t).None? {
      var request := Req(user, Request(t));
      RequestServed(db, user, t);
      StepKeepsInv(db, request);
      ApprovalCloses(Handle(db, request).tables, user, t, notes, now);
      RunFromCons(db, request, [approve]);
      assert [request, approve] == [request] + [approve];
      assert [request, approve][..1] == [request] && [request, approve][..0] == [] && [request][..0] == [];
    } else {
      ApprovalCloses(db, user, t, notes, now);
    }
  }

  lemma RequestServed(db: Tables, user: nat, t: nat)
    requires Inv(db) && OwnsTask(db, user, t) && FindPending(db.approvals, t).None?
    ensures var mid := Handle(db, Req(user, Request(t)));
            && mid.outcome.Ok?
            && FindPending(mid.tables.approvals, t).Some?
            && OwnsTask(mid.tables, user, t)
  {
  }

  lemma ApprovalCloses(db: Tables, user: nat, t: nat, notes: Option<string>, now: int)
    requires Inv(db) && OwnsTask(db, user, t) && FindPending(db.approvals, t).Some?
    ensures var served := Handle(db, Req(user, Approve(t, notes, now)));
            served.outcome.Ok? && Closed(served.tables, t, user)
  {
    hide Handle;
    var i := FindPending(db.approvals, t).value;
    PendingIsDecidable(db, t, i, user);
    var approve := Req(user, Approve(t, notes, now));
    var next := Handle(db, approve).tables;
    StepGrows(db, approve);
    ManagesPersists(db, next, user, t);
    assert IsNewest(db.approvals, t, i);
    assert IsNewest(next.approvals, t, i) && ApprovedOnRecord(next, t, i);
  }
}
