/** What survives every interleaving, requests that overlap on one task included. */
module Overlap {
  import opened Models
  import opened ApprovalService
  import opened TaskService
  import opened Api
  import opened Runs
  import opened Invariants
  import opened Interleaving
  import AuditTrail

  /** The first `k` steps of the system, from an empty database. */
  function State(flush: Flush, steps: seq<Step>): System {
    After(flush, Start(EMPTY_TABLES), steps)
  }

  /** Step `k` is the accepted creation of task `t` with the status DONE. */
  ghost predicate BornDoneAt(flush: Flush, steps: seq<Step>, k: nat, t: nat) {
    && k < |steps|
    && steps[k].Begin?
    && var db := State(flush, steps[..k]).db;
       AuditTrail.AcceptsCreationDone(db, steps[k].req) && |db.tasks| == t
  }

  ghost predicate BornDone(flush: Flush, steps: seq<Step>, t: nat) {
    exists k: nat :: BornDoneAt(flush, steps, k, t)
  }

  /** Row `i` backs task `t`: decided, by someone who manages the task; and, if a commit writes every
      column assigned, an approval. */
  ghost predicate Backs(flush: Flush, db: Tables, t: nat, i: nat) {
    && i < |db.approvals|
    && db.approvals[i].taskId == t
    && !db.approvals[i].status.Pending?
    && db.approvals[i].reviewedBy.Some?
    && Manages(db, db.approvals[i].reviewedBy.value, t)
    && (flush.EveryAssignment? ==> db.approvals[i].status.Approved?)
  }

  // ---------- What every call in flight may rely on ----------

  /** A call past its gates was let through them; the row it looked up was pending then. */
  ghost predicate CallOk(db: Tables, call: Call) {
    call.Answered? ||
    (&& IsSplit(call.req.op)
     && call.req.op.taskId < |db.tasks|
     && Storable(db, call.task)
     && (!call.Loaded? ==>
           && call.req.caller < |db.users|
           && (Decides(call.req.op) ==> Manages(db, call.req.caller, call.req.op.taskId))
           && (call.req.op.Patch? ==> !DirectDoneTransition(call.req.op.updates)))
     && (call.FoundNone? ==> call.req.op.Request?)
     && (call.Found? ==>
           && Decides(call.req.op)
           && call.i < |db.approvals|
           && db.approvals[call.i].taskId == call.req.op.taskId
           && call.row.PendingFor(call.req.op.taskId)
           && call.row.reviewedBy.None? && call.row.reviewedAt.None? && call.row.notes.None?))
  }

  ghost predicate SystemOk(s: System) {
    && Core(s.db)
    && forall id :: 0 <= id < |s.calls| ==> CallOk(s.db, s.calls[id])
  }

  /** Tables only grow; a row stays with its task, and once decided is never pending again. */
  ghost predicate RowsStayDecided(db: Tables, next: Tables) {
    && TablesGrow(db, next)
    && forall i :: 0 <= i < |db.approvals| ==>
                     && next.approvals[i].taskId == db.approvals[i].taskId
                     && next.approvals[i].requestedBy == db.approvals[i].requestedBy
                     && (!db.approvals[i].status.Pending? ==> !next.approvals[i].status.Pending?)
  }

  lemma CommitKeepsRows(flush: Flush, db: Tables, call: Call)
    requires CallOk(db, call) && ReadyToCommit(call)
    ensures RowsStayDecided(db, CommitCall(flush, db, call).tables)
    ensures |CommitCall(flush, db, call).tables.tasks| == |db.tasks|
  {
  }

  lemma CommitKeepsSigned(flush: Flush, db: Tables, call: Call)
    requires AllSigned(db) && CallOk(db, call) && ReadyToCommit(call)
    ensures AllSigned(CommitCall(flush, db, call).tables)
  {
  }

  lemma CommitKeepsReferential(flush: Flush, db: Tables, call: Call)
    requires Referential(db) && CallOk(db, call) && ReadyToCommit(call)
    ensures Referential(CommitCall(flush, db, call).tables)
  {
    hide Override;
  }

  /** A commit writes tasks and approvals only, and moves no task to another project. */
  lemma CommitKeepsTenants(flush: Flush, db: Tables, call: Call)
    requires CallOk(db, call) && ReadyToCommit(call)
    ensures var next := CommitCall(flush, db, call).tables;
            && (UniqueAccounts(db) ==> UniqueAccounts(next))
            && (UniqueLabels(db) ==> UniqueLabels(next))
            && (Isolated(db) ==> Isolated(next))
            && (Owned(db) ==> Owned(next))
  {
    var next := CommitCall(flush, db, call).tables;
    CommitKeepsRows(flush, db, call);
    assert next == db.(tasks := next.tasks, approvals := next.approvals);
    hide CommitCall, CallOk;
    forall k | 0 <= k < |db.taskLabels| && Isolated(db)
      ensures LabelInTasksOrg(next, next.taskLabels[k].taskId, next.taskLabels[k].labelId)
    {
      assert SameOrigin(db.tasks[db.taskLabels[k].taskId], next.tasks[db.taskLabels[k].taskId]);
    }
    forall o | 0 <= o < |db.orgs| && Owned(db) ensures HasOwner(next, o) {
      assert HasOwner(db, o);
    }
  }

  lemma CommitKeepsCore(flush: Flush, db: Tables, call: Call)
    requires Core(db) && CallOk(db, call) && ReadyToCommit(call)
    ensures Core(CommitCall(flush, db, call).tables)
  {
    hide CommitCall;
    CommitKeepsSigned(flush, db, call);
    CommitKeepsReferential(flush, db, call);
    CommitKeepsTenants(flush, db, call);
  }

  lemma CallOkPersists(db: Tables, next: Tables, call: Call)
    requires CallOk(db, call) && RowsStayDecided(db, next)
    ensures CallOk(next, call)
  {
  }

  lemma GateIsOk(db: Tables, call: Call)
    requires CallOk(db, call) && call.Loaded? && Refusal(db, call.req).None?
    ensures CallOk(db, Admitted(call.req, call.task))
  {
  }

  lemma LookUpIsOk(s: System, id: nat, pick: nat)
    requires Core(s.db) && id < |s.calls| && s.calls[id].Admitted? && CallOk(s.db, s.calls[id])
    ensures CallOk(s.db, LookUp(s, id, pick).calls[id])
  {
  }

  lemma TakeKeepsTables(flush: Flush, s: System, step: Step)
    requires SystemOk(s)
    ensures Core(Take(flush, s, step).db) && RowsStayDecided(s.db, Take(flush, s, step).db)
  {
    hide Handle, Refusal, CommitCall, Core, FindPending;
    match step
    case Begin(req) =>
      StepGrows(s.db, req);
      StepKeepsCore(s.db, req);
    case Commit(id) =>
      if CanCommit(s, id) {
        CommitKeepsRows(flush, s.db, s.calls[id]);
        CommitKeepsCore(flush, s.db, s.calls[id]);
      }
    case _ =>
  }

  lemma TakeKeepsCalls(flush: Flush, s: System, step: Step, id: nat)
    requires SystemOk(s) && id < |Take(flush, s, step).calls|
    ensures CallOk(s.db, Take(flush, s, step).calls[id])
  {
    assert forall t :: 0 <= t < |s.db.tasks| ==> Storable(s.db, s.db.tasks[t]);
    hide Handle, Refusal, CommitCall, Core, LookUp;
    match step
    case Gate(g) =>
      if g == id && id < |s.calls| && s.calls[id].Loaded? && Refusal(s.db, s.calls[id].req).None? {
        GateIsOk(s.db, s.calls[id]);
      }
    case Lookup(l, pick) =>
      if l < |s.calls| && s.calls[l].Admitted? {
        LookUpOneCall(s, l, pick);
        LookUpIsOk(s, l, pick);
      }
    case _ =>
  }

  lemma LookUpOneCall(s: System, id: nat, pick: nat)
    requires id < |s.calls| && s.calls[id].Admitted?
    ensures |LookUp(s, id, pick).calls| == |s.calls|
    ensures forall j :: 0 <= j < |s.calls| && j != id ==> LookUp(s, id, pick).calls[j] == s.calls[j]
  {
  }

  lemma TakeKeepsOk(flush: Flush, s: System, step: Step)
    requires SystemOk(s)
    ensures SystemOk(Take(flush, s, step)) && RowsStayDecided(s.db, Take(flush, s, step).db)
  {
    hide Take, Core;
    var next := Take(flush, s, step);
    TakeKeepsTables(flush, s, step);
    forall id | 0 <= id < |next.calls| ensures CallOk(next.db, next.calls[id]) {
      TakeKeepsCalls(flush, s, step, id);
      CallOkPersists(s.db, next.db, next.calls[id]);
    }
  }

  lemma {:induction false} StateIsOk(flush: Flush, steps: seq<Step>)
    ensures SystemOk(State(flush, steps))
  {
    hide Handle, Take;
    if steps != [] {
      var n := |steps| - 1;
      StateIsOk(flush, steps[..n]);
      TakeKeepsOk(flush, State(flush, steps[..n]), steps[n]);
    }
  }

  lemma StateStep(flush: Flush, steps: seq<Step>, k: nat)
    requires k < |steps|
    ensures State(flush, steps[..k + 1]) == Take(flush, State(flush, steps[..k]), steps[k])
    ensures SystemOk(State(flush, steps[..k]))
  {
    hide Take;
    AfterStep(flush, Start(EMPTY_TABLES), steps, k);
    StateIsOk(flush, steps[..k]);
  }

  lemma StateStart(flush: Flush, steps: seq<Step>)
    ensures State(flush, steps[..0]) == Start(EMPTY_TABLES)
  {
  }

  /** What survives every interleaving: sound foreign keys and required columns, unique accounts,
      memberships and labels, every decided row signed by a manager of its task, labels within the
      org of their task, and an owner in each org. */
  lemma CoreSurvives(flush: Flush, steps: seq<Step>)
    ensures Core(State(flush, steps).db)
  {
    hide Handle, Take;
    StateIsOk(flush, steps);
  }

  /** A row decided at some moment of an interleaving is at no later moment pending. */
  lemma {:induction false} DecidedForGood(flush: Flush, steps: seq<Step>, k: nat)
    requires k <= |steps|
    ensures RowsStayDecided(State(flush, steps[..k]).db, State(flush, steps).db)
  {
    hide Handle, Take;
    if k < |steps| {
      var n := |steps| - 1;
      DecidedForGood(flush, steps[..n], k);
      assert steps[..n][..k] == steps[..k];
      StateIsOk(flush, steps[..n]);
      TakeKeepsOk(flush, State(flush, steps[..n]), steps[n]);
      StayTransitive(State(flush, steps[..k]).db, State(flush, steps[..n]).db, State(flush, steps).db);
    } else {
      assert steps[..k] == steps;
    }
  }

  lemma StayTransitive(a: Tables, b: Tables, c: Tables)
    requires RowsStayDecided(a, b) && RowsStayDecided(b, c)
    ensures RowsStayDecided(a, c)
  {
  }

  // ---------- What stands behind Done ----------

  /** A call served whole changes no task there is and no approval row; it adds at most one task, and
      that is Done only if it is an accepted creation with the status DONE. */
  lemma ServedWhole(db: Tables, req: Req)
    requires !(IsSplit(req.op) && req.op.taskId < |db.tasks|)
    ensures var next := Handle(db, req).tables;
            && next.approvals == db.approvals
            && |db.tasks| <= |next.tasks| <= |db.tasks| + 1
            && (forall t :: 0 <= t < |db.tasks| ==> next.tasks[t] == db.tasks[t])
            && (|db.tasks| < |next.tasks| && next.tasks[|db.tasks|].IsDone() ==>
                  AuditTrail.AcceptsCreationDone(db, req))
  {
  }

  predicate Commits(s: System, step: Step) {
    step.Commit? && CanCommit(s, step.id)
  }

  /** Other steps change no task there is and no approval row. */
  lemma OtherStepsLeaveWork(flush: Flush, s: System, step: Step)
    requires !Commits(s, step)
    ensures var next := Take(flush, s, step).db;
            && next.approvals == s.db.approvals
            && |s.db.tasks| <= |next.tasks| <= |s.db.tasks| + 1
            && (forall t :: 0 <= t < |s.db.tasks| ==> next.tasks[t] == s.db.tasks[t])
            && (|s.db.tasks| < |next.tasks| && next.tasks[|s.db.tasks|].IsDone() ==>
                  step.Begin? && AuditTrail.AcceptsCreationDone(s.db, step.req))
  {
    hide Handle, Refusal, CommitCall;
    if step.Begin? && !(IsSplit(step.req.op) && step.req.op.taskId < |s.db.tasks|) {
      ServedWhole(s.db, step.req);
    }
  }

  /** What a commit leaves behind a Done task: it was Done and is backed by the same rows, or the
      commit has just signed a row that backs it. */
  lemma CommitBacks(flush: Flush, db: Tables, call: Call, t: nat)
    requires CallOk(db, call) && ReadyToCommit(call) && t < |db.tasks|
    ensures var next := CommitCall(flush, db, call).tables;
            next.tasks[t].IsDone() ==>
              || (db.tasks[t].IsDone() && forall i: nat :: Backs(flush, db, t, i) ==> Backs(flush, next, t, i))
              || exists i: nat :: Backs(flush, next, t, i)
  {
    var next := CommitCall(flush, db, call).tables;
    CommitKeepsRows(flush, db, call);
    forall i: nat | Backs(flush, db, t, i) ensures Manages(next, db.approvals[i].reviewedBy.value, t) {
      ManagesPersists(db, next, db.approvals[i].reviewedBy.value, t);
    }
    if call.Found? && call.req.op.taskId == t {
      ManagesPersists(db, next, call.req.caller, t);
      assert next.tasks[t].IsDone() ==> Backs(flush, next, t, call.i);
    }
  }

  lemma TakeBacks(flush: Flush, s: System, step: Step, t: nat)
    requires SystemOk(s)
    ensures var next := Take(flush, s, step).db;
            t < |next.tasks| && next.tasks[t].IsDone() ==>
              || (t < |s.db.tasks| && s.db.tasks[t].IsDone()
                  && forall i: nat :: Backs(flush, s.db, t, i) ==> Backs(flush, next, t, i))
              || (exists i: nat :: Backs(flush, next, t, i))
              || (step.Begin? && AuditTrail.AcceptsCreationDone(s.db, step.req) && t == |s.db.tasks|)
  {
    hide Handle, Refusal, CommitCall;
    var next := Take(flush, s, step).db;
    match step {
      case Begin(req) =>
        ServedWholeBacks(flush, s, req, t);
      case Gate(id) =>
      case Lookup(id, pick) =>
      case Commit(id) =>
        if CanCommit(s, id) {
          CommitKeepsRows(flush, s.db, s.calls[id]);
          if t < |s.db.tasks| {
            CommitBacks(flush, s.db, s.calls[id], t);
          }
        }
    }
  }

  lemma ServedWholeBacks(flush: Flush, s: System, req: Req, t: nat)
    ensures var next := Arrive(s, req).db;
            t < |next.tasks| && next.tasks[t].IsDone() ==>
              || (t < |s.db.tasks| && s.db.tasks[t].IsDone()
                  && forall i: nat :: Backs(flush, s.db, t, i) ==> Backs(flush, next, t, i))
              || (AuditTrail.AcceptsCreationDone(s.db, req) && t == |s.db.tasks|)
  {
    hide Handle;
    if !(IsSplit(req.op) && req.op.taskId < |s.db.tasks|) {
      ServedWhole(s.db, req);
      StepGrows(s.db, req);
      var next := Handle(s.db, req).tables;
      forall i: nat | t < |s.db.tasks| && Backs(flush, s.db, t, i) ensures Backs(flush, next, t, i) {
        ManagesPersists(s.db, next, s.db.approvals[i].reviewedBy.value, t);
      }
    }
  }

  /** Under every interleaving, calls overlapping on one task included: a Done task was created DONE,
      or has a row decided by someone who holds Manager or higher in the org that owns its project;
      and an approved one, if commits write every column they assign. */
  lemma {:induction false} DoneIsBacked(flush: Flush, steps: seq<Step>, t: nat)
    requires t < |State(flush, steps).db.tasks| && State(flush, steps).db.tasks[t].IsDone()
    ensures BornDone(flush, steps, t) || exists i: nat :: Backs(flush, State(flush, steps).db, t, i)
  {
    hide Handle, Take;
    var n := |steps| - 1;
    var prev := steps[..n];
    StateIsOk(flush, prev);
    var s := State(flush, prev);
    TakeBacks(flush, s, steps[n], t);
    var next := Take(flush, s, steps[n]).db;
    if i: nat :| Backs(flush, next, t, i) {
    } else if t < |s.db.tasks| && s.db.tasks[t].IsDone() {
      DoneIsBacked(flush, prev, t);
      BornDoneStays(flush, steps, n, t);
    } else {
      assert BornDoneAt(flush, steps, n, t);
    }
  }

  /** A birth is still on the record after more steps. */
  lemma BornDoneStays(flush: Flush, steps: seq<Step>, n: nat, t: nat)
    requires n <= |steps|
    ensures BornDone(flush, steps[..n], t) <==> exists k: nat :: k < n && BornDoneAt(flush, steps, k, t)
    ensures BornDone(flush, steps[..n], t) ==> BornDone(flush, steps, t)
  {
    hide After;
    forall k: nat | k < n ensures BornDoneAt(flush, steps[..n], k, t) <==> BornDoneAt(flush, steps, k, t) {
      assert steps[..n][..k] == steps[..k];
    }
  }
}
