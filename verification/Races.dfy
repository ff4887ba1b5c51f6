/** Exactly which commits of overlapping calls break what the serial service keeps. */
module Races {
  import opened Models
  import opened ApprovalService
  import opened Api
  import opened Runs
  import opened Invariants
  import opened Interleaving
  import opened Overlap
  import AuditTrail

  /** A property of the tables that each step keeps unless it breaks it holds at every moment of an
      execution exactly when no step breaks it. */
  lemma HoldsExactly(flush: Flush, steps: seq<Step>, holds: Tables -> bool, breaks: (System, Step) -> bool)
    requires holds(EMPTY_TABLES)
    requires forall s: System, step: Step ::
               SystemOk(s) && holds(s.db) ==> (holds(Take(flush, s, step).db) <==> !breaks(s, step))
    ensures (forall k: nat :: k <= |steps| ==> holds(State(flush, steps[..k]).db))
            <==> (forall k: nat :: k < |steps| ==> !breaks(State(flush, steps[..k]), steps[k]))
  {
    StateStart(flush, steps);
    hide State, Take, SystemOk;
    var at := (k: nat) => k <= |steps| ==> holds(State(flush, steps[..k]).db);
    var broken := (k: nat) => k < |steps| && breaks(State(flush, steps[..k]), steps[k]);
    forall k: nat | k < |steps| ensures at(k) ==> (at(k + 1) <==> !broken(k)) {
      StateStep(flush, steps, k);
    }
    HoldsThroughout(|steps|, at, broken);
    assert forall k: nat :: k <= |steps| ==> (at(k) <==> holds(State(flush, steps[..k]).db));
    assert forall k: nat :: k < |steps| ==> (broken(k) <==> breaks(State(flush, steps[..k]), steps[k]));
  }

  // ---------- At most one pending row ----------

  ghost predicate OnePending(db: Tables) {
    forall i, j :: 0 <= i < j < |db.approvals| && db.approvals[i].taskId == db.approvals[j].taskId ==>
                     !(db.approvals[i].status.Pending? && db.approvals[j].status.Pending?)
  }

  /** The step commits a request for approval of a task that has a pending row by now: the guard of
      `request_approval`, asked again, would refuse it. */
  predicate RequestsTwice(s: System, step: Step) {
    && Commits(s, step)
    && s.calls[step.id].FoundNone?
    && FindPending(s.db.approvals, s.calls[step.id].req.op.taskId).Some?
  }

  lemma CommitOnePending(flush: Flush, db: Tables, call: Call)
    requires CallOk(db, call) && ReadyToCommit(call)
    ensures var twice := call.FoundNone? && FindPending(db.approvals, call.req.op.taskId).Some?;
            var next := CommitCall(flush, db, call).tables;
            && (OnePending(db) ==> (OnePending(next) <==> !twice))
            && (PendingIsNewest(db) ==> (PendingIsNewest(next) <==> !twice))
  {
    var next := CommitCall(flush, db, call).tables;
    CommitKeepsRows(flush, db, call);
    if call.FoundNone? && FindPending(db.approvals, call.req.op.taskId).Some? {
      var i, j := FindPending(db.approvals, call.req.op.taskId).value, |db.approvals|;
      assert next.approvals[i].status.Pending? && next.approvals[j].status.Pending?;
      assert next.approvals[i].taskId == next.approvals[j].taskId;
    }
  }

  lemma TakeOnePending(flush: Flush, s: System, step: Step)
    requires SystemOk(s)
    ensures OnePending(s.db) ==> (OnePending(Take(flush, s, step).db) <==> !RequestsTwice(s, step))
    ensures PendingIsNewest(s.db) ==> (PendingIsNewest(Take(flush, s, step).db) <==> !RequestsTwice(s, step))
  {
    hide CommitCall, Handle, Refusal;
    if Commits(s, step) {
      CommitOnePending(flush, s.db, s.calls[step.id]);
    } else {
      OtherStepsLeaveWork(flush, s, step);
    }
  }

  /** A task has at most one pending row at every moment of an execution, and no other than its newest,
      exactly when no request for approval commits while its task has a pending row. */
  lemma OnePendingExactly(flush: Flush, steps: seq<Step>)
    ensures (forall k: nat :: k <= |steps| ==> OnePending(State(flush, steps[..k]).db))
            <==> (forall k: nat :: k < |steps| ==> !RequestsTwice(State(flush, steps[..k]), steps[k]))
    ensures (forall k: nat :: k <= |steps| ==> PendingIsNewest(State(flush, steps[..k]).db))
            <==> (forall k: nat :: k < |steps| ==> !RequestsTwice(State(flush, steps[..k]), steps[k]))
  {
    hide Take, State, SystemOk, RequestsTwice;
    forall s: System, step: Step | SystemOk(s)
      ensures OnePending(s.db) ==> (OnePending(Take(flush, s, step).db) <==> !RequestsTwice(s, step))
      ensures PendingIsNewest(s.db) ==> (PendingIsNewest(Take(flush, s, step).db) <==> !RequestsTwice(s, step))
    {
      TakeOnePending(flush, s, step);
    }
    HoldsExactly(flush, steps, db => OnePending(db), (s, step) => RequestsTwice(s, step));
    HoldsExactly(flush, steps, db => PendingIsNewest(db), (s, step) => RequestsTwice(s, step));
  }

  // ---------- Pending rows and Done tasks ----------

  /** The call's assignment does not reach the row: it assigns the status it has loaded. */
  predicate SkipsStatus(flush: Flush, call: Call)
    requires !call.Answered?
  {
    flush.ChangedColumns? && call.task.status == Some(Assigned(call.req.op))
  }

  /** The workflow call about to commit leaves its task Done: it is an approval, or its assignment is
      skipped on a task that is Done by now. */
  predicate EndsDone(flush: Flush, current: Task, call: Call)
    requires !call.Answered?
  {
    if SkipsStatus(flush, call) then current.IsDone() else call.req.op.Approve?
  }

  /** The step commits a workflow call that leaves its task Done, while it adds a pending row or another
      row of the task is pending. */
  ghost predicate FinishesPending(flush: Flush, s: System, step: Step) {
    && Commits(s, step)
    && var call := s.calls[step.id];
    && IsWorkflow(call.req.op)
    && EndsDone(flush, s.db.tasks[call.req.op.taskId], call)
    && (call.FoundNone?
        || exists j :: 0 <= j < |s.db.approvals| && j != call.i && s.db.approvals[j].PendingFor(call.req.op.taskId))
  }

  /** The step commits a workflow call that leaves its task Done, while it adds a row, rejects the newest
      row, or decides an older one and the newest is not approved. */
  ghost predicate FinishesUnapproved(flush: Flush, s: System, step: Step) {
    && Commits(s, step)
    && var call := s.calls[step.id];
       var t := call.req.op.taskId;
    && IsWorkflow(call.req.op)
    && EndsDone(flush, s.db.tasks[t], call)
    && (call.FoundNone?
        || (call.req.op.Reject? && IsNewest(s.db.approvals, t, call.i))
        || exists j: nat :: j != call.i && IsNewest(s.db.approvals, t, j) && !s.db.approvals[j].status.Approved?)
  }

  /** What a commit does to its own task and row, and that it leaves the others alone. */
  lemma CommitOnTask(flush: Flush, db: Tables, call: Call)
    requires CallOk(db, call) && ReadyToCommit(call)
    ensures var t := call.req.op.taskId;
            var next := CommitCall(flush, db, call).tables;
            && |next.tasks| == |db.tasks|
            && (forall u :: 0 <= u < |db.tasks| && u != t ==> next.tasks[u] == db.tasks[u])
            && (IsWorkflow(call.req.op) ==> (next.tasks[t].IsDone() <==> EndsDone(flush, db.tasks[t], call)))
            && (call.Admitted? ==> next.approvals == db.approvals && (next.tasks[t].IsDone() ==> db.tasks[t].IsDone()))
            && (call.FoundNone? ==> next.approvals == db.approvals + [NewRequest(t, call.req.caller)])
            && (call.Found? ==>
                  && |next.approvals| == |db.approvals|
                  && (forall j :: 0 <= j < |db.approvals| && j != call.i ==> next.approvals[j] == db.approvals[j])
                  && next.approvals[call.i].taskId == t
                  && next.approvals[call.i].status == VerdictOf(call.req.op))
  {
  }

  lemma CommitPendingDone(flush: Flush, s: System, step: Step)
    requires SystemOk(s) && Commits(s, step) && PendingIsNotDone(s.db)
    ensures var next := CommitCall(flush, s.db, s.calls[step.id]).tables;
            PendingIsNotDone(next) <==> !FinishesPending(flush, s, step)
  {
    hide CommitCall, EndsDone;
    var call := s.calls[step.id];
    var db, next := s.db, CommitCall(flush, s.db, call).tables;
    CommitOnTask(flush, db, call);
    if FinishesPending(flush, s, step) {
      if call.FoundNone? {
        assert next.approvals[|db.approvals|].status.Pending?;
      } else {
        var j :| 0 <= j < |db.approvals| && j != call.i && db.approvals[j].PendingFor(call.req.op.taskId);
        assert next.approvals[j].status.Pending?;
      }
    }
  }

  lemma CommitDoneApproved(flush: Flush, s: System, step: Step)
    requires SystemOk(s) && Commits(s, step) && DoneIsApproved(s.db)
    ensures var next := CommitCall(flush, s.db, s.calls[step.id]).tables;
            DoneIsApproved(next) <==> !FinishesUnapproved(flush, s, step)
  {
    hide CommitCall, EndsDone, SkipsStatus;
    var call := s.calls[step.id];
    var db, next := s.db, CommitCall(flush, s.db, call).tables;
    var t := call.req.op.taskId;
    CommitOnTask(flush, db, call);
    CommitKeepsRows(flush, db, call);
    if FinishesUnapproved(flush, s, step) {
      UnapprovedIsNewest(flush, s, step);
    } else {
      forall u: nat, i: nat | u < |next.tasks| && next.tasks[u].IsDone() && IsNewest(next.approvals, u, i)
        ensures next.approvals[i].status.Approved?
      {
        assert i < |db.approvals| ==> IsNewest(db.approvals, u, i);
      }
    }
  }

  lemma UnapprovedIsNewest(flush: Flush, s: System, step: Step)
    requires SystemOk(s) && FinishesUnapproved(flush, s, step)
    ensures !DoneIsApproved(CommitCall(flush, s.db, s.calls[step.id]).tables)
  {
    hide CommitCall, EndsDone, SkipsStatus;
    var call := s.calls[step.id];
    var db, next := s.db, CommitCall(flush, s.db, call).tables;
    var t := call.req.op.taskId;
    CommitOnTask(flush, db, call);
    CommitKeepsRows(flush, db, call);
    if call.FoundNone? {
      assert IsNewest(next.approvals, t, |db.approvals|);
    } else {
      var j: nat :| IsNewest(db.approvals, t, j) && (j == call.i ==> call.req.op.Reject?)
                    && (j != call.i ==> !db.approvals[j].status.Approved?);
      assert call.Found?;
      NewestAlike(db.approvals, next.approvals, t, j);
    }
  }

  lemma NewestAlike(before: seq<Approval>, after: seq<Approval>, t: nat, i: nat)
    requires IsNewest(before, t, i) && |after| == |before|
    requires forall j :: 0 <= j < |before| ==> after[j].taskId == before[j].taskId
    ensures IsNewest(after, t, i)
  {
  }

  lemma TakePendingDone(flush: Flush, s: System, step: Step)
    requires SystemOk(s) && PendingIsNotDone(s.db)
    ensures PendingIsNotDone(Take(flush, s, step).db) <==> !FinishesPending(flush, s, step)
  {
    hide CommitCall, Handle, Refusal;
    if Commits(s, step) {
      CommitPendingDone(flush, s, step);
    } else {
      OtherStepsLeaveWork(flush, s, step);
    }
  }

  lemma TakeDoneApproved(flush: Flush, s: System, step: Step)
    requires SystemOk(s) && DoneIsApproved(s.db)
    ensures DoneIsApproved(Take(flush, s, step).db) <==> !FinishesUnapproved(flush, s, step)
  {
    hide CommitCall, Handle, Refusal;
    if Commits(s, step) {
      CommitDoneApproved(flush, s, step);
    } else {
      OtherStepsLeaveWork(flush, s, step);
    }
  }

  /** No task with a pending row is ever Done exactly when no workflow call commits that leaves its task
      Done beside a pending row. */
  lemma PendingNotDoneExactly(flush: Flush, steps: seq<Step>)
    ensures (forall k: nat :: k <= |steps| ==> PendingIsNotDone(State(flush, steps[..k]).db))
            <==> (forall k: nat :: k < |steps| ==> !FinishesPending(flush, State(flush, steps[..k]), steps[k]))
  {
    hide Take, State, SystemOk, FinishesPending;
    forall s: System, step: Step | SystemOk(s) && PendingIsNotDone(s.db)
      ensures PendingIsNotDone(Take(flush, s, step).db) <==> !FinishesPending(flush, s, step)
    {
      TakePendingDone(flush, s, step);
    }
    HoldsExactly(flush, steps, db => PendingIsNotDone(db), (s, step) => FinishesPending(flush, s, step));
  }

  /** The newest row of a Done task is always approved exactly when no workflow call commits that leaves
      its task Done with another newest row. */
  lemma DoneApprovedExactly(flush: Flush, steps: seq<Step>)
    ensures (forall k: nat :: k <= |steps| ==> DoneIsApproved(State(flush, steps[..k]).db))
            <==> (forall k: nat :: k < |steps| ==> !FinishesUnapproved(flush, State(flush, steps[..k]), steps[k]))
  {
    hide Take, State, SystemOk, FinishesUnapproved;
    forall s: System, step: Step | SystemOk(s) && DoneIsApproved(s.db)
      ensures DoneIsApproved(Take(flush, s, step).db) <==> !FinishesUnapproved(flush, s, step)
    {
      TakeDoneApproved(flush, s, step);
    }
    HoldsExactly(flush, steps, db => DoneIsApproved(db), (s, step) => FinishesUnapproved(flush, s, step));
  }

  // ---------- An approval on record ----------

  ghost predicate HasApproval(db: Tables, t: nat) {
    exists i: nat :: AuditTrail.ApprovedOnRecord(db, t, i)
  }

  /** Every Done task that was not created DONE has an approval on record. */
  ghost predicate DoneOnRecord(flush: Flush, steps: seq<Step>) {
    var db := State(flush, steps).db;
    forall t: nat :: t < |db.tasks| && db.tasks[t].IsDone() ==> BornDone(flush, steps, t) || HasApproval(db, t)
  }

  /** A rejection of the only approved row of a task that is Done by now, which had loaded the task
      IN_PROGRESS and so does not write the status back. */
  ghost predicate RejectsLate(flush: Flush, db: Tables, call: Call) {
    && call.Found?
    && call.req.op.Reject?
    && flush.ChangedColumns?
    && call.task.status == Some(InProgress)
    && var t := call.req.op.taskId;
    && t < |db.tasks|
    && db.tasks[t].IsDone()
    && forall j :: 0 <= j < |db.approvals| && j != call.i && db.approvals[j].taskId == t ==>
                     !db.approvals[j].status.Approved?
  }

  /** Step `k` commits such a rejection, of a task not created DONE. */
  ghost predicate LosesApproval(flush: Flush, steps: seq<Step>, k: nat) {
    && k < |steps|
    && var s := State(flush, steps[..k]);
    && Commits(s, steps[k])
    && RejectsLate(flush, s.db, s.calls[steps[k].id])
    && !BornDone(flush, steps[..k], s.calls[steps[k].id].req.op.taskId)
  }

  lemma ApprovedIsOnRecord(db: Tables, t: nat, i: nat)
    requires AllSigned(db) && i < |db.approvals| && db.approvals[i].taskId == t && db.approvals[i].status.Approved?
    ensures HasApproval(db, t)
  {
    assert Signed(db, db.approvals[i]);
    assert AuditTrail.ApprovedOnRecord(db, t, i);
  }

  lemma CommitOnRecord(flush: Flush, db: Tables, call: Call, t: nat)
    requires AllSigned(db) && CallOk(db, call) && ReadyToCommit(call) && t < |db.tasks|
    ensures var next := CommitCall(flush, db, call).tables;
            var late := RejectsLate(flush, db, call) && t == call.req.op.taskId;
            && (late ==> next.tasks[t].IsDone() && !HasApproval(next, t))
            && (!late && next.tasks[t].IsDone() && (db.tasks[t].IsDone() ==> HasApproval(db, t)) ==>
                  HasApproval(next, t))
  {
    var next := CommitCall(flush, db, call).tables;
    CommitOnTask(flush, db, call);
    CommitKeepsSigned(flush, db, call);
    hide CommitCall, Manages;
    if next.tasks[t].IsDone() && !(RejectsLate(flush, db, call) && t == call.req.op.taskId) {
      if call.Found? && t == call.req.op.taskId && call.req.op.Approve? {
        ApprovedIsOnRecord(next, t, call.i);
      } else if db.tasks[t].IsDone() && HasApproval(db, t) {
        var i: nat :| i < |db.approvals| && db.approvals[i].taskId == t && db.approvals[i].status.Approved?
                      && (call.Found? ==> i != call.i);
        ApprovedIsOnRecord(next, t, i);
      }
    }
  }

  lemma TakeOnRecord(flush: Flush, s: System, step: Step, t: nat)
    requires SystemOk(s) && t < |Take(flush, s, step).db.tasks|
    ensures var next := Take(flush, s, step).db;
            var late := Commits(s, step)
                        && RejectsLate(flush, s.db, s.calls[step.id])
                        && t == s.calls[step.id].req.op.taskId;
            && (late ==> next.tasks[t].IsDone() && !HasApproval(next, t))
            && (!late && next.tasks[t].IsDone() ==>
                  || HasApproval(next, t)
                  || (t < |s.db.tasks| && s.db.tasks[t].IsDone() && !HasApproval(s.db, t))
                  || (step.Begin? && AuditTrail.AcceptsCreationDone(s.db, step.req) && t == |s.db.tasks|))
  {
    hide CommitCall, Handle, Refusal, RejectsLate, HasApproval;
    var next := Take(flush, s, step).db;
    if Commits(s, step) {
      CommitKeepsRows(flush, s.db, s.calls[step.id]);
      CommitOnRecord(flush, s.db, s.calls[step.id], t);
    } else {
      OtherStepsLeaveWork(flush, s, step);
      TakeKeepsTables(flush, s, step);
      if HasApproval(s.db, t) {
        ApprovalStays(s.db, next, t);
      }
    }
  }

  lemma ApprovalStays(db: Tables, next: Tables, t: nat)
    requires TablesGrow(db, next) && next.approvals == db.approvals && HasApproval(db, t)
    ensures HasApproval(next, t)
  {
    var i: nat :| AuditTrail.ApprovedOnRecord(db, t, i);
    ManagesPersists(db, next, db.approvals[i].reviewedBy.value, t);
    assert AuditTrail.ApprovedOnRecord(next, t, i);
  }

  /** Who was created DONE after one more step. */
  lemma BornDoneStep(flush: Flush, steps: seq<Step>, k: nat, t: nat)
    requires k < |steps|
    ensures BornDone(flush, steps[..k + 1], t) <==> BornDone(flush, steps[..k], t) || BornDoneAt(flush, steps, k, t)
  {
    hide BornDoneAt;
    BornDoneStays(flush, steps, k, t);
    BornDoneStays(flush, steps, k + 1, t);
  }

  lemma MomentOnRecord(flush: Flush, steps: seq<Step>, k: nat)
    requires k < |steps| && DoneOnRecord(flush, steps[..k])
    ensures DoneOnRecord(flush, steps[..k + 1]) <==> !LosesApproval(flush, steps, k)
  {
    hide Take, After, HasApproval, RejectsLate, State;
    var s, next := State(flush, steps[..k]), State(flush, steps[..k + 1]).db;
    StateStep(flush, steps, k);
    forall t: nat | t < |next.tasks| && next.tasks[t].IsDone() && !LosesApproval(flush, steps, k)
      ensures BornDone(flush, steps[..k + 1], t) || HasApproval(next, t)
    {
      TakeOnRecord(flush, s, steps[k], t);
      BornDoneStep(flush, steps, k, t);
    }
    if LosesApproval(flush, steps, k) {
      var t := s.calls[steps[k].id].req.op.taskId;
      TakeKeepsTables(flush, s, steps[k]);
      TakeOnRecord(flush, s, steps[k], t);
      BornDoneStep(flush, steps, k, t);
      assert next.tasks[t].IsDone() && !HasApproval(next, t) && !BornDone(flush, steps[..k + 1], t);
    }
  }

  /** Every Done task that was not created DONE has an approval on record at every moment exactly when
      no commit rejects, without writing the status back, the only approved row of such a task. */
  lemma DoneOnRecordExactly(flush: Flush, steps: seq<Step>)
    ensures (forall k: nat :: k <= |steps| ==> DoneOnRecord(flush, steps[..k]))
            <==> (forall k: nat :: k < |steps| ==> !LosesApproval(flush, steps, k))
  {
    StateStart(flush, steps);
    assert DoneOnRecord(flush, steps[..0]);
    hide DoneOnRecord, LosesApproval;
    var onRecord := (k: nat) => k <= |steps| ==> DoneOnRecord(flush, steps[..k]);
    var loses := (k: nat) => LosesApproval(flush, steps, k);
    forall k: nat | k < |steps| && onRecord(k) ensures onRecord(k + 1) <==> !loses(k) {
      MomentOnRecord(flush, steps, k);
    }
    HoldsThroughout(|steps|, onRecord, loses);
    assert forall k: nat :: k <= |steps| ==> (onRecord(k) <==> DoneOnRecord(flush, steps[..k]));
    assert forall k: nat :: loses(k) <==> LosesApproval(flush, steps, k);
  }
}
