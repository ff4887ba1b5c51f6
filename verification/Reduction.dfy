/** Where no two overlapping requests assign the same column of the same task, interleaving changes
    nothing. */
module Reduction {
  import opened Models
  import opened ApprovalService
  import opened TaskService
  import opened Api
  import opened Runs
  import opened Invariants
  import opened Interleaving
  import opened Patches

  /** Two split calls that assign a column in common; two workflow calls on one task always do. */
  predicate Conflict(a: Op, b: Op) {
    IsSplit(a) && IsSplit(b) && a.taskId == b.taskId && Columns(a) * Columns(b) != {}
  }

  /** The step starts a call while one it conflicts with is still in flight. */
  ghost predicate Overlaps(s: System, step: Step) {
    && step.Begin?
    && exists id :: 0 <= id < |s.calls| && !s.calls[id].Answered? && Conflict(step.req.op, s.calls[id].req.op)
  }

  ghost predicate NoOverlap(flush: Flush, db: Tables, steps: seq<Step>) {
    forall k :: 0 <= k < |steps| ==> !Overlaps(After(flush, Start(db), steps[..k]), steps[k])
  }

  ghost predicate SameColumns(fields: set<Field>, a: Task, b: Task) {
    forall f :: f in fields ==> GetAttr(a, f) == GetAttr(b, f)
  }

  /** The columns a call in flight assigns are as it has read them, its lookup would find the same,
      and the gates it has passed are still open. */
  ghost predicate Fresh(db: Tables, call: Call) {
    call.Answered? ||
    (&& IsSplit(call.req.op)
     && call.req.op.taskId < |db.tasks|
     && (call.Loaded? || Refusal(db, call.req).None?)
     && SameColumns(Columns(call.req.op), call.task, db.tasks[call.req.op.taskId])
     && (call.FoundNone? ==> call.req.op.Request? && FindPending(db.approvals, call.req.op.taskId).None?)
     && (call.Found? ==>
           && Decides(call.req.op)
           && FindPending(db.approvals, call.req.op.taskId) == Some(call.i)
           && call.row == db.approvals[call.i]))
  }

  ghost predicate AllFresh(s: System) {
    forall id :: 0 <= id < |s.calls| ==> Fresh(s.db, s.calls[id])
  }

  ghost predicate NoConflict(s: System) {
    forall i, j :: 0 <= i < |s.calls| && 0 <= j < |s.calls| && i != j
                   && !s.calls[i].Answered? && !s.calls[j].Answered? ==>
                     !Conflict(s.calls[i].req.op, s.calls[j].req.op)
  }

  lemma SameColumn(a: Task, b: Task, f: Field)
    requires GetAttr(a, f) == GetAttr(b, f)
    ensures match f
            case TitleField => a.title == b.title
            case DescriptionField => a.description == b.description
            case StatusField => a.status == b.status
            case PriorityField => a.priority == b.priority
            case AssigneeField => a.assigneeId == b.assigneeId
            case DueDateField => a.dueDate == b.dueDate
  {
  }

  lemma WriteUpdatesIsOverride(flush: Flush, current: Task, loaded: Task, updates: Updates)
    requires SameColumns(updates.Keys, loaded, current)
    ensures WriteUpdates(flush, current, loaded, updates) == Override(current, updates)
  {
    hide GetAttr;
    forall f | f in updates
      ensures f.TitleField? ==> loaded.title == current.title
      ensures f.DescriptionField? ==> loaded.description == current.description
      ensures f.StatusField? ==> loaded.status == current.status
      ensures f.PriorityField? ==> loaded.priority == current.priority
      ensures f.AssigneeField? ==> loaded.assigneeId == current.assigneeId
      ensures f.DueDateField? ==> loaded.dueDate == current.dueDate
    {
      SameColumn(loaded, current, f);
    }
  }

  lemma WriteStatusIsWithStatus(flush: Flush, current: Task, loaded: Task, status: TaskStatus)
    requires SameColumns({StatusField}, loaded, current)
    ensures WriteStatus(flush, current, loaded, status) == current.(status := Some(status))
  {
    assert GetAttr(loaded, StatusField) == GetAttr(current, StatusField);
  }

  /** A commit of a call whose reads are fresh does what serving its request at once would do. */
  lemma CommitIsHandle(flush: Flush, db: Tables, call: Call)
    requires Fresh(db, call) && ReadyToCommit(call)
    requires call.Found? ==> call.i < |db.approvals|
    ensures CommitCall(flush, db, call) == Handle(db, call.req)
  {
    hide Refusal, Override, WriteUpdates, WriteStatus, GetAttr;
    var current := db.tasks[call.req.op.taskId];
    match call
    case Admitted(req, task) => WriteUpdatesIsOverride(flush, current, task, req.op.updates);
    case FoundNone(req, task) => WriteStatusIsWithStatus(flush, current, task, InReview);
    case Found(req, task, _, _) => WriteStatusIsWithStatus(flush, current, task, StatusAfter(VerdictOf(req.op)));
    case Answered(_, _) =>
  }

  lemma GatePersists(db: Tables, next: Tables, req: Req)
    requires TablesGrow(db, next) && IsSplit(req.op) && Refusal(db, req).None?
    ensures Refusal(next, req).None?
  {
  }

  /** A step that leaves a call's columns and rows alone leaves its reads fresh. */
  lemma FreshPersists(db: Tables, next: Tables, call: Call)
    requires Fresh(db, call) && !call.Answered? && Grows(db, next)
    requires var t := call.req.op.taskId; SameColumns(Columns(call.req.op), db.tasks[t], next.tasks[t])
    requires IsWorkflow(call.req.op) ==> RowsLeft(db.approvals, next.approvals, call.req.op.taskId)
    ensures Fresh(next, call)
  {
    hide Refusal, GetAttr;
    if Refusal(db, call.req).None? {
      GatePersists(db, next, call.req);
    }
  }

  // ---------- The serial order ----------

  /** The order of answers names every answered call once. */
  ghost predicate OrderIsComplete(s: System) {
    && (forall k :: 0 <= k < |s.order| ==> s.order[k] < |s.calls| && s.calls[s.order[k]].Answered?)
    && (forall id: nat :: id < |s.calls| && s.calls[id].Answered? ==> id in s.order)
    && (forall i, j :: 0 <= i < j < |s.order| ==> s.order[i] != s.order[j])
  }

  /** The requests answered so far, in order of answer. */
  function Serial(s: System): (reqs: seq<Req>)
    requires forall k :: 0 <= k < |s.order| ==> s.order[k] < |s.calls|
    ensures |reqs| == |s.order|
    ensures forall k :: 0 <= k < |s.order| ==> reqs[k] == s.calls[s.order[k]].req
  {
    seq(|s.order|, k requires 0 <= k < |s.order| => s.calls[s.order[k]].req)
  }

  /** The answers they got. */
  function Outcomes(s: System): (outcomes: seq<Outcome>)
    requires forall k :: 0 <= k < |s.order| ==> s.order[k] < |s.calls| && s.calls[s.order[k]].Answered?
    ensures |outcomes| == |s.order|
    ensures forall k :: 0 <= k < |s.order| ==> outcomes[k] == s.calls[s.order[k]].outcome
  {
    seq(|s.order|, k requires 0 <= k < |s.order| => s.calls[s.order[k]].outcome)
  }

  /** Serving the requests one at a time gives these answers. */
  ghost predicate SerialAnswers(db: Tables, reqs: seq<Req>, outcomes: seq<Outcome>) {
    && |outcomes| == |reqs|
    && forall k :: 0 <= k < |reqs| ==> outcomes[k] == Handle(RunFrom(db, reqs[..k]), reqs[k]).outcome
  }

  /** Serving the same requests one at a time, in order of answer, gives the same tables and the same
      answers. */
  ghost predicate AsIfSerial(db: Tables, s: System) {
    && OrderIsComplete(s)
    && s.db == RunFrom(db, Serial(s))
    && SerialAnswers(db, Serial(s), Outcomes(s))
  }

  /** The step answers call `id` with exactly what serving its request at this moment gives. */
  ghost predicate ServedNow(s: System, next: System, id: nat, req: Req) {
    && id <= |s.calls| <= |next.calls|
    && id < |next.calls| <= |s.calls| + 1
    && (id < |s.calls| ==> |next.calls| == |s.calls| && !s.calls[id].Answered? && s.calls[id].req == req)
    && (forall j :: 0 <= j < |s.calls| && j != id ==> next.calls[j] == s.calls[j])
    && next.db == Handle(s.db, req).tables
    && next.calls[id] == Answered(req, Handle(s.db, req).outcome)
    && next.order == s.order + [id]
  }

  /** The step answers no call and changes no table; calls in flight keep their request. */
  ghost predicate Silent(s: System, next: System) {
    && next.db == s.db
    && next.order == s.order
    && |s.calls| <= |next.calls| <= |s.calls| + 1
    && (forall j :: 0 <= j < |s.calls| ==>
          if s.calls[j].Answered? then next.calls[j] == s.calls[j]
          else !next.calls[j].Answered? && next.calls[j].req == s.calls[j].req)
    && (|s.calls| < |next.calls| ==> !next.calls[|s.calls|].Answered?)
  }

  /** Each step of a system whose reads are fresh is silent, or answers a call as if served now. */
  lemma StepIsServedOrSilent(flush: Flush, s: System, step: Step)
    requires Inv(s.db) && AllFresh(s)
    ensures var next := Take(flush, s, step);
            || (Silent(s, next) && AllFresh(next))
            || (step.Begin? && ServedNow(s, next, |s.calls|, step.req) && (IsSplit(step.req.op) ==> next.db == s.db))
            || (!step.Begin? && step.id < |s.calls| && ServedNow(s, next, step.id, s.calls[step.id].req))
  {
    match step
    case Begin(req) => ArriveServes(s, req);
    case Gate(id) =>
      if id < |s.calls| && s.calls[id].Loaded? {
        PassGateServes(s, id);
      }
    case Lookup(id, pick) =>
      if id < |s.calls| && s.calls[id].Admitted? {
        LookUpServes(s, id, pick);
      }
    case Commit(id) =>
      if CanCommit(s, id) {
        assert Fresh(s.db, s.calls[id]);
        CommitIsHandle(flush, s.db, s.calls[id]);
      }
  }

  lemma ArriveServes(s: System, req: Req)
    requires AllFresh(s)
    ensures var next := Arrive(s, req);
            || (Silent(s, next) && AllFresh(next))
            || (ServedNow(s, next, |s.calls|, req) && (IsSplit(req.op) ==> next.db == s.db))
  {
  }

  lemma PassGateServes(s: System, id: nat)
    requires AllFresh(s) && id < |s.calls| && s.calls[id].Loaded?
    ensures var next := PassGate(s, id);
            (Silent(s, next) && AllFresh(next)) || ServedNow(s, next, id, s.calls[id].req)
  {
    hide Refusal, GetAttr;
    assert Fresh(s.db, s.calls[id]);
  }

  lemma ConflictServed(db: Tables, req: Req)
    requires IsWorkflow(req.op) && Refusal(db, req).None? && req.op.taskId < |db.tasks|
    requires req.op.Request? == FindPending(db.approvals, req.op.taskId).Some?
    ensures Handle(db, req) == Response(db, Err(Error.Conflict))
  {
    hide Refusal, FindPending;
  }

  lemma LookUpServes(s: System, id: nat, pick: nat)
    requires Inv(s.db) && AllFresh(s) && id < |s.calls| && s.calls[id].Admitted?
    ensures var next := LookUp(s, id, pick);
            (Silent(s, next) && AllFresh(next)) || ServedNow(s, next, id, s.calls[id].req)
  {
    hide Handle, Refusal, GetAttr, FindPending;
    var Admitted(req, task) := s.calls[id];
    assert Fresh(s.db, s.calls[id]);
    var pending := FindPending(s.db.approvals, req.op.taskId);
    if IsWorkflow(req.op) && req.op.Request? == pending.Some? {
      ConflictServed(s.db, req);
    } else if Decides(req.op) && pick < |s.db.approvals| && s.db.approvals[pick].PendingFor(req.op.taskId) {
      PendingIsUnique(s.db, req.op.taskId, pick);
    }
  }

  // ---------- Answering keeps everything ----------

  lemma ServedKeepsOrder(s: System, next: System, id: nat, req: Req)
    requires OrderIsComplete(s) && ServedNow(s, next, id, req)
    ensures OrderIsComplete(next)
    ensures Serial(next) == Serial(s) + [req]
    ensures Outcomes(next) == Outcomes(s) + [Handle(s.db, req).outcome]
  {
    hide Handle;
    ServedCompletesOrder(s, next, id, req);
    forall k | 0 <= k < |s.order| ensures next.calls[next.order[k]] == s.calls[s.order[k]] {
      assert s.calls[s.order[k]].Answered?;
    }
    assert next.calls[next.order[|s.order|]] == Answered(req, Handle(s.db, req).outcome);
  }

  lemma ServedCompletesOrder(s: System, next: System, id: nat, req: Req)
    requires OrderIsComplete(s) && ServedNow(s, next, id, req)
    ensures OrderIsComplete(next)
  {
    hide Handle;
    forall j: nat | j < |next.calls| && next.calls[j].Answered? ensures j in next.order {
      if j == id {
        assert next.order[|s.order|] == id;
      } else {
        assert j in s.order;
        var k :| 0 <= k < |s.order| && s.order[k] == j;
        assert next.order[k] == j;
      }
    }
  }

  lemma SerialAnswersExtend(db: Tables, reqs: seq<Req>, outcomes: seq<Outcome>, req: Req)
    requires SerialAnswers(db, reqs, outcomes)
    ensures SerialAnswers(db, reqs + [req], outcomes + [Handle(RunFrom(db, reqs), req).outcome])
    ensures RunFrom(db, reqs + [req]) == Handle(RunFrom(db, reqs), req).tables
  {
    hide Handle;
    assert (reqs + [req])[..|reqs|] == reqs;
    forall k | 0 <= k < |reqs| ensures (reqs + [req])[..k] == reqs[..k] {
    }
  }

  lemma ServedKeepsSerial(db: Tables, s: System, next: System, id: nat, req: Req)
    requires AsIfSerial(db, s) && ServedNow(s, next, id, req)
    ensures AsIfSerial(db, next)
  {
    hide Handle, RunFrom, SerialAnswers;
    ServedKeepsOrder(s, next, id, req);
    SerialAnswersExtend(db, Serial(s), Outcomes(s), req);
  }

  lemma SilentKeepsSerial(db: Tables, s: System, next: System)
    requires AsIfSerial(db, s) && Silent(s, next)
    ensures AsIfSerial(db, next)
  {
    hide Handle, RunFrom, SerialAnswers;
    assert Serial(next) == Serial(s) && Outcomes(next) == Outcomes(s);
  }

  /** Serving a request leaves every column alone that it does not assign. */
  lemma StepLeavesColumn(db: Tables, req: Req, t: nat, f: Field)
    requires t < |db.tasks| && !(IsSplit(req.op) && req.op.taskId == t && f in Columns(req.op))
    ensures t < |Handle(db, req).tables.tasks| && GetAttr(Handle(db, req).tables.tasks[t], f) == GetAttr(db.tasks[t], f)
  {
    if req.op.Patch? && req.op.taskId == t {
      PatchReads(db.tasks[t], req.op.updates, f);
    }
  }

  /** A call that does not conflict with the request just served keeps its reads fresh. */
  lemma OtherStaysFresh(db: Tables, req: Req, call: Call)
    requires Fresh(db, call) && !call.Answered? && !Conflict(req.op, call.req.op)
    ensures Fresh(Handle(db, req).tables, call)
  {
    hide Handle, Refusal, GetAttr;
    var t, next := call.req.op.taskId, Handle(db, req).tables;
    StepGrows(db, req);
    forall f | f in Columns(call.req.op) ensures GetAttr(next.tasks[t], f) == GetAttr(db.tasks[t], f) {
      assert f in Columns(req.op) ==> f in Columns(req.op) * Columns(call.req.op);
      StepLeavesColumn(db, req, t, f);
    }
    if IsWorkflow(call.req.op) {
      assert IsWorkflow(req.op) ==> StatusField in Columns(req.op) * Columns(call.req.op);
      StepLeavesRows(db, req, t);
    }
    FreshPersists(db, next, call);
  }

  lemma ServedKeepsFresh(s: System, next: System, id: nat, req: Req)
    requires AllFresh(s) && NoConflict(s) && ServedNow(s, next, id, req)
    requires id == |s.calls| && IsSplit(req.op) ==> next.db == s.db
    ensures AllFresh(next) && NoConflict(next)
  {
    hide Handle, Fresh;
    forall j | 0 <= j < |next.calls| ensures Fresh(next.db, next.calls[j]) {
      if j == id {
        AnsweredIsFresh(next.db, next.calls[j]);
      } else if s.calls[j].Answered? {
        AnsweredIsFresh(next.db, next.calls[j]);
      } else if next.db != s.db {
        OtherStaysFresh(s.db, req, s.calls[j]);
      }
    }
  }

  lemma AnsweredIsFresh(db: Tables, call: Call)
    requires call.Answered?
    ensures Fresh(db, call)
  {
  }

  lemma SilentKeepsNoConflict(flush: Flush, s: System, step: Step)
    requires NoConflict(s) && !Overlaps(s, step) && Silent(s, Take(flush, s, step))
    ensures NoConflict(Take(flush, s, step))
  {
  }

  /** Reduction: whatever the interleaving, and whichever columns a commit writes, as long as no two
      overlapping requests assign the same column of a task, the tables and every answer are at each
      moment those of serving the requests answered so far one at a time, in order of answer; and so
      every invariant of the serial service holds. */
  lemma {:induction false} ReductionTheorem(flush: Flush, db: Tables, steps: seq<Step>, k: nat)
    requires Inv(db) && NoOverlap(flush, db, steps) && k <= |steps|
    ensures AsIfSerial(db, After(flush, Start(db), steps[..k]))
    ensures Inv(After(flush, Start(db), steps[..k]).db)
  {
    hide Handle, Take, After;
    StaysFresh(flush, db, steps, k);
    RunFromKeepsInv(db, Serial(After(flush, Start(db), steps[..k])));
  }

  lemma {:induction false} StaysFresh(flush: Flush, db: Tables, steps: seq<Step>, k: nat)
    requires Inv(db) && NoOverlap(flush, db, steps) && k <= |steps|
    ensures var s := After(flush, Start(db), steps[..k]); AsIfSerial(db, s) && AllFresh(s) && NoConflict(s)
  {
    hide Handle, Take;
    if k > 0 {
      StaysFresh(flush, db, steps, k - 1);
      var s := After(flush, Start(db), steps[..k - 1]);
      RunFromKeepsInv(db, Serial(s));
      assert !Overlaps(s, steps[k - 1]);
      OneStepReduces(flush, db, s, steps[k - 1]);
      AfterStep(flush, Start(db), steps, k - 1);
    }
  }

  lemma OneStepReduces(flush: Flush, db: Tables, s: System, step: Step)
    requires Inv(s.db) && AsIfSerial(db, s) && AllFresh(s) && NoConflict(s) && !Overlaps(s, step)
    ensures var next := Take(flush, s, step); AsIfSerial(db, next) && AllFresh(next) && NoConflict(next)
  {
    hide Handle, Take;
    var next := Take(flush, s, step);
    StepIsServedOrSilent(flush, s, step);
    if Silent(s, next) && AllFresh(next) {
      SilentKeepsSerial(db, s, next);
      SilentKeepsNoConflict(flush, s, step);
    } else {
      var id := if step.Begin? then |s.calls| else step.id;
      var req := if step.Begin? then step.req else s.calls[step.id].req;
      ServedKeepsSerial(db, s, next, id, req);
      ServedKeepsFresh(s, next, id, req);
    }
  }

  // ---------- No request is lost or invented ----------

  /** The requests that have arrived, in order. */
  function Arrivals(steps: seq<Step>): seq<Req> {
    if steps == [] then []
    else
      var n := |steps| - 1;
      Arrivals(steps[..n]) + if steps[n].Begin? then [steps[n].req] else []
  }

  /** The calls of a system are the arrived requests, one for one, overlapping or not. */
  lemma {:induction false} CallsAreArrivals(flush: Flush, db: Tables, steps: seq<Step>)
    ensures var calls := After(flush, Start(db), steps).calls;
            |calls| == |Arrivals(steps)| && forall k :: 0 <= k < |calls| ==> calls[k].req == Arrivals(steps)[k]
  {
    hide Handle, Take;
    if steps != [] {
      var n := |steps| - 1;
      CallsAreArrivals(flush, db, steps[..n]);
      TakeKeepsRequests(flush, After(flush, Start(db), steps[..n]), steps[n]);
    }
  }

  lemma TakeKeepsRequests(flush: Flush, s: System, step: Step)
    ensures var calls := Take(flush, s, step).calls;
            && |calls| == |s.calls| + (if step.Begin? then 1 else 0)
            && (forall k :: 0 <= k < |s.calls| ==> calls[k].req == s.calls[k].req)
            && (step.Begin? ==> calls[|s.calls|].req == step.req)
  {
  }
}
