/** The audit trail behind Done: what the approval rows of a task say about its past, in every run. */
module AuditTrail {
  import opened Models
  import opened ApprovalService
  import opened Api
  import opened Runs
  import opened Invariants
  import opened Scenario

  // ---------- Where a task comes from ----------

  /** Request `i` of the run is the accepted creation of task `t`. */
  ghost predicate CreatesTask(reqs: seq<Req>, i: nat, t: nat) {
    && i < |reqs|
    && reqs[i].op.AddTask?
    && Accepts(Run(reqs[..i]), reqs[i])
    && |Run(reqs[..i]).tasks| == t
  }

  ghost predicate CreatesDone(reqs: seq<Req>, i: nat, t: nat) {
    CreatesTask(reqs, i, t) && reqs[i].op.body.status == Done
  }

  ghost predicate NoRows(approvals: seq<Approval>, t: nat) {
    forall i :: 0 <= i < |approvals| ==> approvals[i].taskId != t
  }

  /** Request `i` created task `t` DONE, and it has been Done at every moment since. */
  ghost predicate AlwaysDone(reqs: seq<Req>, i: nat, t: nat) {
    && CreatesDone(reqs, i, t)
    && forall j :: i < j <= |reqs| ==> t < |Run(reqs[..j]).tasks| && Run(reqs[..j]).tasks[t].IsDone()
  }

  lemma {:induction false} BornAndStayed(reqs: seq<Req>, t: nat)
    requires t < |Run(reqs).tasks| && Run(reqs).tasks[t].IsDone() && NoRows(Run(reqs).approvals, t)
    ensures exists i: nat :: AlwaysDone(reqs, i, t)
  {
    hide Handle;
    var n := |reqs| - 1;
    var prev, last := reqs[..n], reqs[n];
    var db := Run(prev);
    StepGrows(db, last);
    assert reqs[..|reqs|] == reqs;
    if t < |db.tasks| {
      forall i | 0 <= i < |db.approvals| ensures db.approvals[i].taskId != t {
        assert RowKept(db.approvals[i], Run(reqs).approvals[i]);
      }
      if !db.tasks[t].IsDone() {
        StepIntoDone(db, last, t);
        StepOnTask(db, last, t);
      }
      BornAndStayed(prev, t);
      var i: nat :| AlwaysDone(prev, i, t);
      assert forall j :: 0 <= j <= n ==> prev[..j] == reqs[..j];
      assert AlwaysDone(reqs, i, t);
    } else {
      StepNewTask(db, last, t);
      assert AlwaysDone(reqs, n, t);
    }
  }

  /** A request for approval would have taken the task out of Done. */
  lemma {:induction false} AlwaysDoneHasNoRows(reqs: seq<Req>, i: nat, t: nat, j: nat)
    requires AlwaysDone(reqs, i, t) && i < j <= |reqs|
    ensures NoRows(Run(reqs[..j]).approvals, t)
  {
    hide Handle;
    var db, last := Run(reqs[..j - 1]), reqs[j - 1];
    RunStep(reqs, j - 1);
    if j - 1 == i {
      CreationHasNoRows(db, last);
      RunInv(reqs[..i]);
    } else {
      AlwaysDoneHasNoRows(reqs, i, t, j - 1);
      assert t < |Run(reqs[..j]).tasks| && Run(reqs[..j]).tasks[t].IsDone();
      if WorksOn(db, last, t) {
        StepOnTask(db, last, t);
      } else {
        StepLeavesRows(db, last, t);
      }
    }
  }

  lemma CreationHasNoRows(db: Tables, req: Req)
    requires req.op.AddTask?
    ensures Handle(db, req).tables.approvals == db.approvals
  {
  }

  /** A task is Done with no approval row exactly when it was created DONE and has been Done ever since. */
  lemma DoneWithoutRows(reqs: seq<Req>, t: nat)
    ensures (t < |Run(reqs).tasks| && Run(reqs).tasks[t].IsDone() && NoRows(Run(reqs).approvals, t))
            <==> exists i: nat :: AlwaysDone(reqs, i, t)
  {
    hide Handle, Run;
    assert reqs[..|reqs|] == reqs;
    if i: nat :| AlwaysDone(reqs, i, t) {
      AlwaysDoneHasNoRows(reqs, i, t, |reqs|);
      assert t < |Run(reqs[..|reqs|]).tasks|;
    } else if t < |Run(reqs).tasks| && Run(reqs).tasks[t].IsDone() && NoRows(Run(reqs).approvals, t) {
      BornAndStayed(reqs, t);
    }
  }

  // ---------- The audit of a Done task ----------

  lemma {:induction false} NewestExists(approvals: seq<Approval>, t: nat)
    requires !NoRows(approvals, t)
    ensures exists i: nat :: IsNewest(approvals, t, i)
  {
    var n := |approvals| - 1;
    if approvals[n].taskId == t {
      assert IsNewest(approvals, t, n);
    } else {
      assert !NoRows(approvals[..n], t);
      NewestExists(approvals[..n], t);
      var i: nat :| IsNewest(approvals[..n], t, i);
      assert IsNewest(approvals, t, i);
    }
  }

  /** Row `i` is an approval of task `t` signed by someone who manages it. */
  ghost predicate ApprovedOnRecord(db: Tables, t: nat, i: nat) {
    && i < |db.approvals|
    && db.approvals[i].taskId == t
    && db.approvals[i].status.Approved?
    && db.approvals[i].reviewedBy.Some?
    && Manages(db, db.approvals[i].reviewedBy.value, t)
  }

  /** In every reachable state a Done task either has no approval row and was created DONE, or its
      newest row is an approval by a reviewer who still holds Manager or higher in the org that owns
      its project. */
  lemma SerialAudit(reqs: seq<Req>, t: nat)
    requires t < |Run(reqs).tasks| && Run(reqs).tasks[t].IsDone()
    ensures var db := Run(reqs);
            || (NoRows(db.approvals, t) && exists i: nat :: CreatesDone(reqs, i, t))
            || exists i: nat :: IsNewest(db.approvals, t, i) && ApprovedOnRecord(db, t, i)
  {
    hide Handle;
    var db := Run(reqs);
    RunInv(reqs);
    if NoRows(db.approvals, t) {
      DoneWithoutRows(reqs, t);
      var i: nat :| AlwaysDone(reqs, i, t);
      assert CreatesDone(reqs, i, t);
    } else {
      NewestExists(db.approvals, t);
      var i: nat :| IsNewest(db.approvals, t, i);
      assert Signed(db, db.approvals[i]);
      assert ApprovedOnRecord(db, t, i);
    }
  }

  /** The documented guarantee: every Done task has an auditable approver on record. */
  ghost predicate EveryDoneOnRecord(db: Tables) {
    forall t :: 0 <= t < |db.tasks| && db.tasks[t].IsDone() ==> exists i: nat :: ApprovedOnRecord(db, t, i)
  }

  /** The unguarded branch: an accepted creation with the status DONE. */
  ghost predicate AcceptsCreationDone(db: Tables, req: Req) {
    req.op.AddTask? && req.op.body.status == Done && Accepts(db, req)
  }

  /** The guarantee holds throughout a run exactly when the run accepts no task created DONE. */
  lemma GuaranteeExactly(reqs: seq<Req>)
    ensures (forall i :: 0 <= i <= |reqs| ==> EveryDoneOnRecord(Run(reqs[..i])))
            <==> (forall i :: 0 <= i < |reqs| ==> !AcceptsCreationDone(Run(reqs[..i]), reqs[i]))
  {
    hide Handle;
    if i: nat :| 0 <= i < |reqs| && AcceptsCreationDone(Run(reqs[..i]), reqs[i]) {
      CreatedDoneIsOffRecord(reqs, i);
      assert !EveryDoneOnRecord(Run(reqs[..i + 1]));
    } else {
      forall i | 0 <= i <= |reqs| ensures EveryDoneOnRecord(Run(reqs[..i])) {
        var prefix := reqs[..i];
        forall t | 0 <= t < |Run(prefix).tasks| && Run(prefix).tasks[t].IsDone()
          ensures exists k :: ApprovedOnRecord(Run(prefix), t, k)
        {
          SerialAudit(prefix, t);
          assert forall k :: 0 <= k < i ==> prefix[..k] == reqs[..k];
        }
      }
    }
  }

  lemma CreatedDoneIsOffRecord(reqs: seq<Req>, i: nat)
    requires i < |reqs| && AcceptsCreationDone(Run(reqs[..i]), reqs[i])
    ensures !EveryDoneOnRecord(Run(reqs[..i + 1]))
  {
    var db, next := Run(reqs[..i]), Run(reqs[..i + 1]);
    RunStep(reqs, i);
    RunInv(reqs[..i]);
    assert next.tasks[|db.tasks|].IsDone();
    assert NoRows(next.approvals, |db.tasks|);
  }

  /** A run that breaks the documented guarantee: a member creates a task that is DONE from the start. */
  lemma GuaranteeFails()
    ensures exists reqs: seq<Req> :: !EveryDoneOnRecord(Run(reqs))
  {
    SetupRuns(Done);
    var db := Workspace(Done);
    assert db.tasks[0].IsDone();
    assert !EveryDoneOnRecord(db);
  }

  // ---------- The workflow of a task, read off its rows ----------

  datatype Event = Requested | Reviewed(verdict: ApprovalStatus)

  /** The workflow event a request is for task `t`, if it is an accepted one. */
  function EventOf(db: Tables, req: Req, t: nat): Option<Event> {
    if !WorksOn(db, req, t) then None
    else if req.op.Request? then Some(Requested)
    else Some(Reviewed(if req.op.Approve? then Approved else Rejected))
  }

  /** The accepted workflow events of task `t`, in order. */
  function Trace(reqs: seq<Req>, t: nat): seq<Event> {
    if reqs == [] then []
    else
      var n := |reqs| - 1;
      var event := EventOf(Run(reqs[..n]), reqs[n], t);
      Trace(reqs[..n], t) + if event.Some? then [event.value] else []
  }

  /** The statuses of the task's approval rows, oldest first. */
  function Statuses(approvals: seq<Approval>, t: nat): seq<ApprovalStatus> {
    if approvals == [] then []
    else
      var n := |approvals| - 1;
      Statuses(approvals[..n], t) + if approvals[n].taskId == t then [approvals[n].status] else []
  }

  lemma {:induction false} StatusesLocal(a: seq<Approval>, b: seq<Approval>, t: nat)
    requires |a| <= |b|
    requires forall i :: 0 <= i < |a| ==> a[i].taskId == b[i].taskId && (a[i].taskId == t ==> a[i] == b[i])
    requires forall i :: |a| <= i < |b| ==> b[i].taskId != t
    ensures Statuses(a, t) == Statuses(b, t)
    decreases |b|
  {
    if |a| < |b| {
      StatusesLocal(a, b[..|b| - 1], t);
    } else if a != [] {
      StatusesLocal(a[..|a| - 1], b[..|b| - 1], t);
    }
  }

  /** Rewriting the newest row of a task rewrites the last of its statuses. */
  lemma {:induction false} StatusesOfNewest(a: seq<Approval>, t: nat, i: nat, row: Approval)
    requires IsNewest(a, t, i) && row.taskId == t
    ensures var s := Statuses(a, t);
            && s != []
            && s[|s| - 1] == a[i].status
            && Statuses(a[i := row], t) == s[..|s| - 1] + [row.status]
  {
    var n := |a| - 1;
    if i < n {
      StatusesOfNewest(a[..n], t, i, row);
      assert a[i := row][..n] == a[..n][i := row];
    } else {
      assert a[i := row][..n] == a[..n];
    }
  }

  lemma StatusesAppend(a: seq<Approval>, row: Approval, t: nat)
    ensures Statuses(a + [row], t) == Statuses(a, t) + if row.taskId == t then [row.status] else []
  {
  }

  lemma PendingIsLast(db: Tables, t: nat)
    requires PendingIsNewest(db)
    ensures var rows := Statuses(db.approvals, t);
            FindPending(db.approvals, t).Some? <==> rows != [] && rows[|rows| - 1].Pending?
  {
    if NoRows(db.approvals, t) {
      StatusesLocal([], db.approvals, t);
    } else {
      NewestExists(db.approvals, t);
      var i: nat :| IsNewest(db.approvals, t, i);
      StatusesOfNewest(db.approvals, t, i, db.approvals[i]);
    }
  }

  predicate EndsPending(rows: seq<ApprovalStatus>) {
    rows != [] && rows[|rows| - 1].Pending?
  }

  /** How a workflow event moves the statuses of its task's rows. */
  predicate RowsMove(before: seq<ApprovalStatus>, event: Option<Event>, after: seq<ApprovalStatus>) {
    match event
    case None => after == before
    case Some(Requested) => !EndsPending(before) && after == before + [Pending]
    case Some(Reviewed(verdict)) =>
      EndsPending(before) && !verdict.Pending? && after == before[..|before| - 1] + [verdict]
  }

  lemma StatusesOnRequest(db: Tables, req: Req, t: nat)
    requires PendingIsNewest(db) && WorksOn(db, req, t) && req.op.Request?
    ensures RowsMove(Statuses(db.approvals, t), Some(Requested), Statuses(Handle(db, req).tables.approvals, t))
  {
    hide Handle;
    StepOnTask(db, req, t);
    PendingIsLast(db, t);
    StatusesAppend(db.approvals, NewRequest(t, req.caller), t);
  }

  lemma StatusesOnDecision(db: Tables, req: Req, t: nat)
    requires PendingIsNewest(db) && WorksOn(db, req, t) && Decides(req.op)
    ensures RowsMove(Statuses(db.approvals, t), EventOf(db, req, t), Statuses(Handle(db, req).tables.approvals, t))
  {
    hide Handle;
    StepOnTask(db, req, t);
    var i := FindPending(db.approvals, t).value;
    assert IsNewest(db.approvals, t, i);
    var verdict := if req.op.Approve? then Approved else Rejected;
    StatusesOfNewest(db.approvals, t, i, Stamped(db.approvals[i], verdict, req.caller, req.op.notes, req.op.now));
  }

  /** One request moves the statuses of a task as its event says. */
  lemma StatusesStep(db: Tables, req: Req, t: nat)
    requires PendingIsNewest(db)
    ensures RowsMove(Statuses(db.approvals, t), EventOf(db, req, t), Statuses(Handle(db, req).tables.approvals, t))
  {
    hide Handle;
    if !WorksOn(db, req, t) {
      StepLeavesRows(db, req, t);
      StepGrows(db, req);
      StatusesLocal(db.approvals, Handle(db, req).tables.approvals, t);
    } else if req.op.Request? {
      StatusesOnRequest(db, req, t);
    } else {
      StatusesOnDecision(db, req, t);
    }
  }

  /** A trace that alternates between a request and a decision, and the rows it leaves: row `k` is
      request `2k` with the verdict of event `2k + 1`, pending if that has not come. */
  ghost predicate Paired(trace: seq<Event>, rows: seq<ApprovalStatus>) {
    && (forall k :: 0 <= k < |trace| ==> (trace[k].Requested? <==> k % 2 == 0))
    && (forall k :: 0 <= k < |trace| && trace[k].Reviewed? ==> !trace[k].verdict.Pending?)
    && |rows| == (|trace| + 1) / 2
    && (forall k :: 0 <= k < |rows| ==>
          rows[k] == if 2 * k + 1 < |trace| then trace[2 * k + 1].verdict else Pending)
  }

  lemma PairedStep(trace: seq<Event>, rows: seq<ApprovalStatus>, event: Option<Event>, after: seq<ApprovalStatus>)
    requires Paired(trace, rows) && RowsMove(rows, event, after)
    ensures Paired(trace + if event.Some? then [event.value] else [], after)
  {
  }

  lemma EndsPendingIsOdd(trace: seq<Event>, rows: seq<ApprovalStatus>)
    requires Paired(trace, rows)
    ensures EndsPending(rows) <==> |trace| % 2 == 1
  {
  }

  /** In any run the accepted workflow events of a task form (request decision)* with an optional
      last request; its rows are these pairs in order; and a row is pending exactly when the last
      event is a request. */
  lemma {:induction false} Alternation(reqs: seq<Req>, t: nat)
    ensures Paired(Trace(reqs, t), Statuses(Run(reqs).approvals, t))
    ensures FindPending(Run(reqs).approvals, t).Some? <==> |Trace(reqs, t)| % 2 == 1
  {
    hide Handle;
    if reqs != [] {
      var n := |reqs| - 1;
      var db := Run(reqs[..n]);
      Alternation(reqs[..n], t);
      RunPending(reqs[..n]);
      StatusesStep(db, reqs[n], t);
      PairedStep(Trace(reqs[..n], t), Statuses(db.approvals, t), EventOf(db, reqs[n], t),
                 Statuses(Run(reqs).approvals, t));
    }
    RunPending(reqs);
    PendingIsLast(Run(reqs), t);
    EndsPendingIsOdd(Trace(reqs, t), Statuses(Run(reqs).approvals, t));
  }

  // ---------- Counting entries into Done ----------

  /** The request takes an existing task from not-Done to Done. */
  predicate EntersDone(db: Tables, req: Req, t: nat) {
    t < |db.tasks| && !db.tasks[t].IsDone() && |db.tasks| <= |Handle(db, req).tables.tasks|
    && Handle(db, req).tables.tasks[t].IsDone()
  }

  /** How often task `t` has entered Done after its creation. */
  function Entries(reqs: seq<Req>, t: nat): nat {
    if reqs == [] then 0
    else
      var n := |reqs| - 1;
      Entries(reqs[..n], t) + if EntersDone(Run(reqs[..n]), reqs[n], t) then 1 else 0
  }

  lemma CountStep(rows: seq<ApprovalStatus>, event: Option<Event>, after: seq<ApprovalStatus>)
    requires RowsMove(rows, event, after)
    ensures multiset(after)[Approved]
            == multiset(rows)[Approved] + if event == Some(Reviewed(Approved)) then 1 else 0
  {
    if EndsPending(rows) {
      assert rows == rows[..|rows| - 1] + [Pending];
    }
  }

  /** Over any run, a task has exactly as many APPROVED rows as it has had entries into Done: each
      entry spends one fresh approval. */
  lemma {:induction false} Counting(reqs: seq<Req>, t: nat)
    ensures multiset(Statuses(Run(reqs).approvals, t))[Approved] == Entries(reqs, t)
  {
    hide Handle;
    if reqs != [] {
      var n := |reqs| - 1;
      var db := Run(reqs[..n]);
      Counting(reqs[..n], t);
      RunPending(reqs[..n]);
      RunInv(reqs[..n]);
      EntersDoneExactly(db, reqs[n], t);
      StatusesStep(db, reqs[n], t);
      CountStep(Statuses(db.approvals, t), EventOf(db, reqs[n], t), Statuses(Run(reqs).approvals, t));
    }
  }

  /** A request takes a task into Done exactly when it is an accepted approval of it. */
  lemma EntersDoneExactly(db: Tables, req: Req, t: nat)
    requires Inv(db)
    ensures EntersDone(db, req, t) <==> EventOf(db, req, t) == Some(Reviewed(Approved))
  {
  }
}
