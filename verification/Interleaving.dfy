/** Requests in flight together.  Each workflow call and each PATCH is served in separate steps: the
    read of the task row, then the gates and the guard, then for a workflow call the lookup of a
    pending row, then the commit.  Between the steps of one call any steps of others may run; a
    commit is atomic. */
module Interleaving {
  import opened Models
  import opened ApprovalService
  import opened TaskService
  import opened Api

  /** What a commit writes: every column assigned since the load, or only those whose value then
      differs from the loaded one.  The theorems hold for both unless they say otherwise. */
  datatype Flush = EveryAssignment | ChangedColumns

  /** The calls that take several steps. */
  predicate IsSplit(op: Op) {
    op.Patch? || IsWorkflow(op)
  }

  /** The columns of its task's row that such a call assigns. */
  function Columns(op: Op): set<Field> {
    if op.Patch? then op.updates.Keys else {StatusField}
  }

  /** The status a workflow call assigns. */
  function Assigned(op: Op): TaskStatus {
    if op.Request? then InReview else if op.Approve? then Done else InProgress
  }

  /** How far a call has got, with what it has read: the task row; once it is past the gates, for a
      decision also the pending row `i` as it was at the lookup. */
  datatype Call =
    | Loaded(req: Req, task: Task)
    | Admitted(req: Req, task: Task)
    | FoundNone(req: Req, task: Task)
    | Found(req: Req, task: Task, i: nat, row: Approval)
    | Answered(req: Req, outcome: Outcome)

  /** The tables, the calls by order of arrival, and the calls answered so far in order of answer. */
  datatype System = System(db: Tables, calls: seq<Call>, order: seq<nat>)

  /** `pick` is the pending row the lookup happens to return, should there be several. */
  datatype Step =
    | Begin(req: Req)
    | Gate(id: nat)
    | Lookup(id: nat, pick: nat)
    | Commit(id: nat)

  function Write<T(==)>(flush: Flush, current: T, loaded: T, wanted: T): T {
    if flush.ChangedColumns? && wanted == loaded then current else wanted
  }

  function WriteStatus(flush: Flush, current: Task, loaded: Task, status: TaskStatus): Task {
    current.(status := Write(flush, current.status, loaded.status, Some(status)))
  }

  function WriteUpdates(flush: Flush, current: Task, loaded: Task, updates: Updates): Task {
    var wanted := Override(loaded, updates);
    Task(
      current.projectId,
      current.reporterId,
      if TitleField in updates then Write(flush, current.title, loaded.title, wanted.title) else current.title,
      if DescriptionField in updates
        then Write(flush, current.description, loaded.description, wanted.description) else current.description,
      if StatusField in updates then Write(flush, current.status, loaded.status, wanted.status) else current.status,
      if PriorityField in updates
        then Write(flush, current.priority, loaded.priority, wanted.priority) else current.priority,
      if AssigneeField in updates
        then Write(flush, current.assigneeId, loaded.assigneeId, wanted.assigneeId) else current.assigneeId,
      if DueDateField in updates
        then Write(flush, current.dueDate, loaded.dueDate, wanted.dueDate) else current.dueDate)
  }

  function WriteRow(flush: Flush, current: Approval, loaded: Approval, wanted: Approval): Approval {
    current.(status := Write(flush, current.status, loaded.status, wanted.status),
             reviewedBy := Write(flush, current.reviewedBy, loaded.reviewedBy, wanted.reviewedBy),
             reviewedAt := Write(flush, current.reviewedAt, loaded.reviewedAt, wanted.reviewedAt),
             notes := Write(flush, current.notes, loaded.notes, wanted.notes))
  }

  predicate ReadyToCommit(call: Call) {
    match call
    case Loaded(_, _) => false
    case Admitted(req, _) => req.op.Patch?
    case FoundNone(req, _) => req.op.Request?
    case Found(req, _, _, _) => Decides(req.op)
    case Answered(_, _) => false
  }

  function VerdictOf(op: Op): ApprovalStatus {
    if op.Approve? then Approved else Rejected
  }

  /** The commit of a call on the tables as they are now. */
  function CommitCall(flush: Flush, db: Tables, call: Call): Response
    requires ReadyToCommit(call)
    requires call.req.op.taskId < |db.tasks|
    requires call.Found? ==> call.i < |db.approvals|
  {
    var t := call.req.op.taskId;
    match call
    case Admitted(req, task) =>
      var written := WriteUpdates(flush, db.tasks[t], task, req.op.updates);
      if !Storable(db, written) then Response(db, Err(CommitFailed))
      else Response(db.(tasks := db.tasks[t := written]), Ok(t))
    case FoundNone(req, task) =>
      Response(
        db.(approvals := db.approvals + [NewRequest(t, req.caller)],
            tasks := db.tasks[t := WriteStatus(flush, db.tasks[t], task, InReview)]),
        Ok(|db.approvals|))
    case Found(req, task, i, row) =>
      var verdict := VerdictOf(req.op);
      var stamped := Stamped(row, verdict, req.caller, req.op.notes, req.op.now);
      Response(
        db.(approvals := db.approvals[i := WriteRow(flush, db.approvals[i], row, stamped)],
            tasks := db.tasks[t := WriteStatus(flush, db.tasks[t], task, StatusAfter(verdict))]),
        Ok(i))
  }

  function Answer(s: System, id: nat, db: Tables, outcome: Outcome): System
    requires id < |s.calls|
  {
    System(db, s.calls[id := Answered(s.calls[id].req, outcome)], s.order + [id])
  }

  /** A call arrives.  One that is split reads its task row, if there is one; any other is served whole. */
  function Arrive(s: System, req: Req): System {
    if IsSplit(req.op) && req.op.taskId < |s.db.tasks| then
      s.(calls := s.calls + [Loaded(req, s.db.tasks[req.op.taskId])])
    else
      var served := Handle(s.db, req);
      System(served.tables, s.calls + [Answered(req, served.outcome)], s.order + [|s.calls|])
  }

  /** The gates, on the memberships as they are now, and the guard of a PATCH. */
  function PassGate(s: System, id: nat): System
    requires id < |s.calls| && s.calls[id].Loaded?
  {
    var Loaded(req, task) := s.calls[id];
    var refusal := Refusal(s.db, req);
    if refusal.Some? then Answer(s, id, s.db, Err(refusal.value))
    else s.(calls := s.calls[id := Admitted(req, task)])
  }

  /** The lookup of a pending row answers with a conflict when it finds what the call cannot use. */
  function LookUp(s: System, id: nat, pick: nat): System
    requires id < |s.calls| && s.calls[id].Admitted?
  {
    var Admitted(req, task) := s.calls[id];
    if !IsWorkflow(req.op) then s
    else
      var pending := FindPending(s.db.approvals, req.op.taskId);
      if req.op.Request? == pending.Some? then Answer(s, id, s.db, Err(Conflict))
      else if req.op.Request? then s.(calls := s.calls[id := FoundNone(req, task)])
      else if pick < |s.db.approvals| && s.db.approvals[pick].PendingFor(req.op.taskId) then
        s.(calls := s.calls[id := Found(req, task, pick, s.db.approvals[pick])])
      else s
  }

  predicate CanCommit(s: System, id: nat) {
    && id < |s.calls|
    && ReadyToCommit(s.calls[id])
    && s.calls[id].req.op.taskId < |s.db.tasks|
    && (s.calls[id].Found? ==> s.calls[id].i < |s.db.approvals|)
  }

  /** One step; a step that makes no sense where it stands does nothing. */
  function Take(flush: Flush, s: System, step: Step): System {
    match step
    case Begin(req) => Arrive(s, req)
    case Gate(id) => if id < |s.calls| && s.calls[id].Loaded? then PassGate(s, id) else s
    case Lookup(id, pick) => if id < |s.calls| && s.calls[id].Admitted? then LookUp(s, id, pick) else s
    case Commit(id) =>
      if CanCommit(s, id) then
        var committed := CommitCall(flush, s.db, s.calls[id]);
        Answer(s, id, committed.tables, committed.outcome)
      else s
  }

  function After(flush: Flush, s: System, steps: seq<Step>): System {
    if steps == [] then s
    else Take(flush, After(flush, s, steps[..|steps| - 1]), steps[|steps| - 1])
  }

  /** Nothing in flight yet. */
  function Start(db: Tables): System {
    System(db, [], [])
  }

  lemma AfterStep(flush: Flush, s: System, steps: seq<Step>, k: nat)
    requires k < |steps|
    ensures After(flush, s, steps[..k + 1]) == Take(flush, After(flush, s, steps[..k]), steps[k])
  {
    hide Take;
    assert steps[..k + 1][..k] == steps[..k];
  }

  lemma {:induction false} AfterConcat(flush: Flush, s: System, before: seq<Step>, after: seq<Step>)
    ensures After(flush, s, before + after) == After(flush, After(flush, s, before), after)
    decreases |after|
  {
    hide Take;
    if after == [] {
      assert before + after == before;
    } else {
      var n := |after| - 1;
      var all := before + after;
      assert all[..|all| - 1] == before + after[..n] && all[|all| - 1] == after[n];
      AfterConcat(flush, s, before, after[..n]);
    }
  }

  lemma AfterCons(flush: Flush, s: System, step: Step, rest: seq<Step>)
    ensures After(flush, s, [step] + rest) == After(flush, Take(flush, s, step), rest)
  {
    hide Take;
    AfterConcat(flush, s, [step], rest);
    assert [step][..0] == [];
  }
}
