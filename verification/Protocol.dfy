/** What each step of a call in flight does, in every state of every execution, and what the columns of a
    task and of an approval row hold as a result: the last value written. */
module Protocol {
  import opened Models
  import opened Rbac
  import opened Deps
  import opened ApprovalService
  import opened TaskService
  import opened Api
  import opened Invariants
  import opened Interleaving
  import opened Acceptance
  import opened Tenancy
  import opened Overlap

  // ---------- The steps before the commit ----------

  /** A request arrives: it reads the task row as it is, or is answered whole as the rows call for. */
  lemma ArrivalExactly(flush: Flush, steps: seq<Step>, req: Req)
    ensures var s := State(flush, steps);
            var next := Take(flush, s, Begin(req));
            if IsSplit(req.op) && req.op.taskId < |s.db.tasks| then
              next == s.(calls := s.calls + [Loaded(req, s.db.tasks[req.op.taskId])])
            else
              && |next.calls| == |s.calls| + 1
              && next.calls[|s.calls|].Answered?
              && Meets(s.db, req, Response(next.db, next.calls[|s.calls|].outcome))
              && next.order == s.order + [|s.calls|]
              && next.calls == s.calls + [Answered(req, next.calls[|s.calls|].outcome)]
  {
    hide Handle, Meets, State;
    StateIsOk(flush, steps);
    HandleMeets(State(flush, steps).db, req);
  }

  /** The gates and the guard let the call through. */
  ghost predicate MayPass(db: Tables, req: Req)
    requires IsSplit(req.op)
  {
    && MayActOn(db, req.op.taskId, req.caller, if Decides(req.op) then {Manager, Admin, Owner} else EVERYONE)
    && (req.op.Patch? ==> !Finishes(req.op.updates))
  }

  lemma RefusalMeans(db: Tables, req: Req)
    requires ForeignKeys(db) && UniqueAccounts(db) && IsSplit(req.op) && req.op.taskId < |db.tasks|
    ensures Refusal(db, req) == if MayPass(db, req) then None else Some(Why(db, req))
  {
    hide TaskGate, Holds;
    TaskGateMeans(db, req.op.taskId, req.caller, if Decides(req.op) then Manager else Member);
  }

  /** The gate decides on the memberships as they are at that moment, whatever has become of the task since
      it was read. */
  lemma GateExactly(flush: Flush, steps: seq<Step>, id: nat)
    requires id < |State(flush, steps).calls| && State(flush, steps).calls[id].Loaded?
    ensures var s := State(flush, steps);
            var Loaded(req, task) := s.calls[id];
            && IsSplit(req.op)
            && Take(flush, s, Gate(id))
               == if MayPass(s.db, req) then s.(calls := s.calls[id := Admitted(req, task)])
                  else System(s.db, s.calls[id := Answered(req, Err(Why(s.db, req)))], s.order + [id])
  {
    hide Refusal, MayPass, Why, State;
    StateIsOk(flush, steps);
    var s := State(flush, steps);
    assert CallOk(s.db, s.calls[id]);
    RefusalMeans(s.db, s.calls[id].req);
  }

  /** The lookup decides on the rows as they are at that moment. */
  lemma LookupExactly(flush: Flush, s: System, id: nat, pick: nat)
    requires id < |s.calls| && s.calls[id].Admitted? && IsWorkflow(s.calls[id].req.op)
    ensures var Admitted(req, task) := s.calls[id];
            var t := req.op.taskId;
            Take(flush, s, Lookup(id, pick))
            == if HasPending(s.db, t) == req.op.Request? then
                 System(s.db, s.calls[id := Answered(req, Err(Conflict))], s.order + [id])
               else if req.op.Request? then s.(calls := s.calls[id := FoundNone(req, task)])
               else if pick < |s.db.approvals| && s.db.approvals[pick].PendingFor(t) then
                 s.(calls := s.calls[id := Found(req, task, pick, s.db.approvals[pick])])
               else s
  {
    hide FindPending;
  }

  // ---------- The commit ----------

  /** The value the call assigns to a column of its task. */
  function Carried(op: Op, f: Field): Option<Value> {
    if op.Patch? then if f in op.updates then Some(op.updates[f]) else None
    else if f == StatusField then Some(StatusValue(Assigned(op)))
    else None
  }

  /** The assignment reaches the database: always, or only where it changes what the call had read. */
  predicate Reaches(flush: Flush, call: Call, f: Field)
    requires !call.Answered?
  {
    var v := Carried(call.req.op, f);
    v.Some? && (flush.ChangedColumns? ==> v.value != GetAttr(call.task, f))
  }

  /** The decided row: verdict, reviewer and time are those of the call; so are the notes, unless only
      changed columns are written and the call carries none. */
  function DecidedRow(flush: Flush, row: Approval, req: Req): Approval
    requires Decides(req.op)
  {
    Approval(row.taskId, row.requestedBy, if req.op.Approve? then Approved else Rejected, Some(req.caller),
             Some(req.op.now), if flush.ChangedColumns? && req.op.notes.None? then row.notes else req.op.notes)
  }

  /** A patch commits unless it nulls a required column or names an unknown assignee. */
  predicate Commitable(db: Tables, op: Op) {
    op.Patch? ==> SoundPatch(db, op.updates)
  }

  lemma OverlappedPatchStorable(flush: Flush, db: Tables, current: Task, loaded: Task, updates: Updates)
    requires Storable(db, current) && Storable(db, loaded) && !DirectDoneTransition(updates)
    ensures Storable(db, WriteUpdates(flush, current, loaded, updates)) <==> SoundPatch(db, updates)
  {
  }

  lemma WrittenColumn(flush: Flush, current: Task, loaded: Task, updates: Updates, f: Field)
    ensures GetAttr(WriteUpdates(flush, current, loaded, updates), f)
            == if f in updates && (flush.ChangedColumns? ==> updates[f] != GetAttr(loaded, f)) then updates[f]
               else GetAttr(current, f)
  {
  }

  lemma WrittenStatus(flush: Flush, current: Task, loaded: Task, status: TaskStatus, f: Field)
    ensures GetAttr(WriteStatus(flush, current, loaded, status), f)
            == if f == StatusField && (flush.ChangedColumns? ==> StatusValue(status) != GetAttr(loaded, f))
               then StatusValue(status) else GetAttr(current, f)
  {
  }

  /** The answer of a commit, and the tables after it. */
  ghost predicate CommitsTo(flush: Flush, db: Tables, call: Call, response: Response)
    requires ReadyToCommit(call) && call.req.op.taskId < |db.tasks|
    requires call.Found? ==> call.i < |db.approvals|
  {
    var op, t, next := call.req.op, call.req.op.taskId, response.tables;
    if !Commitable(db, op) then response == Response(db, Err(CommitFailed))
    else
      && response.outcome == Ok(if call.Found? then call.i else if call.FoundNone? then |db.approvals| else t)
      && next == db.(tasks := next.tasks, approvals := next.approvals)
      && |next.tasks| == |db.tasks|
      && (forall u :: 0 <= u < |db.tasks| && u != t ==> next.tasks[u] == db.tasks[u])
      && next.tasks[t].projectId == db.tasks[t].projectId
      && next.tasks[t].reporterId == db.tasks[t].reporterId
      && (forall f :: GetAttr(next.tasks[t], f)
            == if Reaches(flush, call, f) then Carried(op, f).value else GetAttr(db.tasks[t], f))
      && next.approvals
         == if call.FoundNone? then db.approvals + [Approval(t, call.req.caller, Pending, None, None, None)]
            else if call.Found? then db.approvals[call.i := DecidedRow(flush, db.approvals[call.i], call.req)]
            else db.approvals
  }

  lemma PatchCommitsTo(flush: Flush, db: Tables, call: Call)
    requires ForeignKeys(db) && CallOk(db, call) && ReadyToCommit(call) && call.Admitted?
    ensures CommitsTo(flush, db, call, CommitCall(flush, db, call))
  {
    hide WriteUpdates, Storable, SoundPatch, GetAttr;
    var t := call.req.op.taskId;
    OverlappedPatchStorable(flush, db, db.tasks[t], call.task, call.req.op.updates);
    forall f ensures GetAttr(WriteUpdates(flush, db.tasks[t], call.task, call.req.op.updates), f)
                     == if Reaches(flush, call, f) then call.req.op.updates[f] else GetAttr(db.tasks[t], f) {
      WrittenColumn(flush, db.tasks[t], call.task, call.req.op.updates, f);
    }
    WriteUpdatesKeepsOrigin(flush, db.tasks[t], call.task, call.req.op.updates);
  }

  lemma WriteUpdatesKeepsOrigin(flush: Flush, current: Task, loaded: Task, updates: Updates)
    ensures var written := WriteUpdates(flush, current, loaded, updates);
            written.projectId == current.projectId && written.reporterId == current.reporterId
  {
  }

  lemma WorkflowCommitsTo(flush: Flush, db: Tables, call: Call)
    requires CallOk(db, call) && ReadyToCommit(call) && !call.Admitted?
    ensures CommitsTo(flush, db, call, CommitCall(flush, db, call))
  {
    hide GetAttr;
    var current, status := db.tasks[call.req.op.taskId], Assigned(call.req.op);
    forall f ensures GetAttr(WriteStatus(flush, current, call.task, status), f)
                     == if Reaches(flush, call, f) then StatusValue(status) else GetAttr(current, f) {
      WrittenStatus(flush, current, call.task, status, f);
    }
  }

  lemma CommitMeets(flush: Flush, s: System, id: nat)
    requires SystemOk(s) && CanCommit(s, id)
    ensures CommitsTo(flush, s.db, s.calls[id], CommitCall(flush, s.db, s.calls[id]))
  {
    assert CallOk(s.db, s.calls[id]);
    hide CommitsTo, CommitCall, CallOk;
    if s.calls[id].Admitted? {
      PatchCommitsTo(flush, s.db, s.calls[id]);
    } else {
      WorkflowCommitsTo(flush, s.db, s.calls[id]);
    }
  }

  /** In every state of every execution, overlapping calls included, a commit answers and writes exactly
      this, whatever has happened to the task and its rows since the call read them. */
  lemma CommitExactly(flush: Flush, steps: seq<Step>, id: nat)
    requires CanCommit(State(flush, steps), id)
    ensures var s := State(flush, steps);
            var next := Take(flush, s, Commit(id));
            && next.calls == s.calls[id := next.calls[id]]
            && next.order == s.order + [id]
            && next.calls[id].Answered?
            && next.calls[id].req == s.calls[id].req
            && CommitsTo(flush, s.db, s.calls[id], Response(next.db, next.calls[id].outcome))
  {
    hide State, CommitsTo, CommitCall, CallOk, Core;
    StateIsOk(flush, steps);
    CommitMeets(flush, State(flush, steps), id);
  }

  // ---------- The last writer wins ----------

  /** The value a creation gives to a column. */
  function Sent(body: TaskCreate, f: Field): Value {
    match f
    case TitleField => Text(body.title)
    case DescriptionField => if body.description.None? then Null else Text(body.description.value)
    case StatusField => StatusValue(body.status)
    case PriorityField => PriorityValue(body.priority)
    case AssigneeField => if body.assigneeId.None? then Null else UserRef(body.assigneeId.value)
    case DueDateField => if body.dueDate.None? then Null else Day(body.dueDate.value)
  }

  /** The value the step writes to column `f` of task `t`: that of an accepted creation of the task, or of
      a commit on it whose assignment reaches the column. */
  ghost function Written(flush: Flush, s: System, step: Step, t: nat, f: Field): Option<Value> {
    if step.Begin? then
      if step.req.op.AddTask? && t == |s.db.tasks| && Allowed(s.db, step.req) then Some(Sent(step.req.op.body, f))
      else None
    else if Commits(s, step) && s.calls[step.id].req.op.taskId == t && Commitable(s.db, s.calls[step.id].req.op)
            && Reaches(flush, s.calls[step.id], f) then
      Carried(s.calls[step.id].req.op, f)
    else None
  }

  /** The last value written to the column in the course of an execution. */
  ghost function LastWritten(flush: Flush, steps: seq<Step>, t: nat, f: Field): Value {
    if steps == [] then Null
    else
      var n := |steps| - 1;
      var written := Written(flush, State(flush, steps[..n]), steps[n], t, f);
      if written.Some? then written.value else LastWritten(flush, steps[..n], t, f)
  }

  lemma CreationSends(db: Tables, req: Req, f: Field)
    requires req.op.AddTask? && ForeignKeys(db) && UniqueAccounts(db)
    ensures var next := Handle(db, req).tables;
            |next.tasks| > |db.tasks| ==> Allowed(db, req) && GetAttr(next.tasks[|db.tasks|], f) == Sent(req.op.body, f)
    ensures Allowed(db, req) ==> |Handle(db, req).tables.tasks| > |db.tasks|
  {
    hide Handle, Allowed;
    HandleMeets(db, req);
  }

  lemma ArrivalWrites(flush: Flush, s: System, req: Req, t: nat, f: Field)
    requires SystemOk(s) && t < |Arrive(s, req).db.tasks|
    ensures var next, written := Arrive(s, req).db, Written(flush, s, Begin(req), t, f);
            && (written.None? ==> t < |s.db.tasks|)
            && GetAttr(next.tasks[t], f) == if written.Some? then written.value else GetAttr(s.db.tasks[t], f)
  {
    hide Handle, Allowed, GetAttr, CallOk, Sent;
    if !(IsSplit(req.op) && req.op.taskId < |s.db.tasks|) {
      ServedWhole(s.db, req);
      if |s.db.tasks| <= t {
        StepNewTask(s.db, req, t);
      }
      if req.op.AddTask? {
        CreationSends(s.db, req, f);
      }
    }
  }

  lemma TakeWrites(flush: Flush, s: System, step: Step, t: nat, f: Field)
    requires SystemOk(s) && t < |Take(flush, s, step).db.tasks|
    ensures var next, written := Take(flush, s, step).db, Written(flush, s, step, t, f);
            && (written.None? ==> t < |s.db.tasks|)
            && GetAttr(next.tasks[t], f) == if written.Some? then written.value else GetAttr(s.db.tasks[t], f)
  {
    hide CommitCall, CallOk, GetAttr, Core, Arrive, Refusal, Allowed, SoundPatch, FindPending;
    if step.Begin? {
      ArrivalWrites(flush, s, step.req, t, f);
    } else if Commits(s, step) {
      CommitMeets(flush, s, step.id);
    } else {
      OtherStepsLeaveWork(flush, s, step);
    }
  }

  /** Under every interleaving a column of a task reads the value of the last accepted creation or commit
      that wrote it. */
  lemma {:induction false} LastWriterWins(flush: Flush, steps: seq<Step>, t: nat, f: Field)
    requires t < |State(flush, steps).db.tasks|
    ensures GetAttr(State(flush, steps).db.tasks[t], f) == LastWritten(flush, steps, t, f)
  {
    hide Take, GetAttr, Written;
    if steps != [] {
      var n := |steps| - 1;
      StateIsOk(flush, steps[..n]);
      TakeWrites(flush, State(flush, steps[..n]), steps[n], t, f);
      if Written(flush, State(flush, steps[..n]), steps[n], t, f).None? {
        LastWriterWins(flush, steps[..n], t, f);
      }
    }
  }

  // ---------- What an approval row tells ----------

  /** Who asked, the last decision that was committed, and the notes it left or found. */
  datatype Story = Story(asked: Req, decision: Option<Req>, notes: Option<string>)

  /** The story of row `i` in the course of an execution, once there is one. */
  ghost function StoryOf(flush: Flush, steps: seq<Step>, i: nat): Option<Story> {
    if steps == [] then None
    else
      var n := |steps| - 1;
      var before := StoryOf(flush, steps[..n], i);
      var s := State(flush, steps[..n]);
      if !Commits(s, steps[n]) then before
      else
        var call := s.calls[steps[n].id];
        if call.FoundNone? && i == |s.db.approvals| then Some(Story(call.req, None, None))
        else if call.Found? && i == call.i && before.Some? then
          var kept := flush.ChangedColumns? && call.req.op.notes.None?;
          Some(Story(before.value.asked, Some(call.req), if kept then before.value.notes else call.req.op.notes))
        else before
  }

  /** The row that goes with a story. */
  function RowOf(story: Story): Approval
    requires story.asked.op.Request? && (story.decision.Some? ==> Decides(story.decision.value.op))
  {
    var Story(asked, decision, notes) := story;
    if decision.None? then Approval(asked.op.taskId, asked.caller, Pending, None, None, notes)
    else
      Approval(asked.op.taskId, asked.caller, if decision.value.op.Approve? then Approved else Rejected,
               Some(decision.value.caller), Some(decision.value.op.now), notes)
  }

  ghost predicate Tells(story: Option<Story>, row: Approval) {
    && story.Some?
    && story.value.asked.op.Request?
    && (story.value.decision.Some? ==> Decides(story.value.decision.value.op))
    && row == RowOf(story.value)
  }

  /** Under every interleaving a row holds the task and the requester of the request that added it, and the
      verdict, reviewer and time of the last decision committed on it; and its notes, unless only
      changed columns are written and that decision carried none: then those it found. */
  lemma {:induction false} RowsTellTheirStory(flush: Flush, steps: seq<Step>, i: nat)
    requires i < |State(flush, steps).db.approvals|
    ensures Tells(StoryOf(flush, steps, i), State(flush, steps).db.approvals[i])
  {
    hide Take, CommitCall;
    if steps != [] {
      var n := |steps| - 1;
      var s := State(flush, steps[..n]);
      StateIsOk(flush, steps[..n]);
      if i < |s.db.approvals| {
        RowsTellTheirStory(flush, steps[..n], i);
      }
      TakeRow(flush, s, steps[n], i);
    }
  }

  /** What a step does to row `i`. */
  lemma TakeRow(flush: Flush, s: System, step: Step, i: nat)
    requires SystemOk(s) && i < |Take(flush, s, step).db.approvals|
    ensures var next := Take(flush, s, step).db;
            if !Commits(s, step) then next.approvals == s.db.approvals
            else
              var call := s.calls[step.id];
              if i >= |s.db.approvals| then
                && call.FoundNone? && call.req.op.Request? && i == |s.db.approvals|
                && next.approvals[i] == Approval(call.req.op.taskId, call.req.caller, Pending, None, None, None)
              else if call.Found? && call.i == i then
                && Decides(call.req.op)
                && next.approvals[i] == DecidedRow(flush, s.db.approvals[i], call.req)
              else next.approvals[i] == s.db.approvals[i]
  {
    if Commits(s, step) {
      assert CallOk(s.db, s.calls[step.id]);
      hide CommitCall, CallOk, GetAttr, Core;
      CommitMeets(flush, s, step.id);
    } else {
      OtherStepsLeaveWork(flush, s, step);
    }
  }

  // ---------- No call is stuck ----------

  /** The call can be answered by `n` more steps of its own. */
  ghost predicate CanFinish(flush: Flush, s: System, id: nat, n: nat) {
    exists rest: seq<Step> ::
      && |rest| <= n
      && (forall k :: 0 <= k < |rest| ==> !rest[k].Begin? && rest[k].id == id)
      && var last := After(flush, s, rest);
         id < |last.calls| && last.calls[id].Answered?
  }

  lemma AnsweredHasFinished(flush: Flush, s: System, id: nat, n: nat)
    requires id < |s.calls| && s.calls[id].Answered?
    ensures CanFinish(flush, s, id, n)
  {
    assert After(flush, s, []) == s;
  }

  lemma OneStepMore(flush: Flush, s: System, step: Step, id: nat, n: nat)
    requires !step.Begin? && step.id == id && CanFinish(flush, Take(flush, s, step), id, n)
    ensures CanFinish(flush, s, id, n + 1)
  {
    hide Take, After;
    var rest: seq<Step> :| |rest| <= n
      && (forall k :: 0 <= k < |rest| ==> !rest[k].Begin? && rest[k].id == id)
      && var last := After(flush, Take(flush, s, step), rest); id < |last.calls| && last.calls[id].Answered?;
    AfterCons(flush, s, step, rest);
    assert |[step] + rest| <= n + 1;
  }

  lemma CommitFinishes(flush: Flush, s: System, id: nat)
    requires SystemOk(s) && id < |s.calls|
    requires var call := s.calls[id]; call.FoundNone? || call.Found? || (call.Admitted? && call.req.op.Patch?)
    ensures CanFinish(flush, s, id, 1)
  {
    hide CanFinish;
    assert CallOk(s.db, s.calls[id]);
    AnsweredHasFinished(flush, Take(flush, s, Commit(id)), id, 0);
    OneStepMore(flush, s, Commit(id), id, 0);
  }

  lemma AdmittedFinishes(flush: Flush, s: System, id: nat)
    requires SystemOk(s) && id < |s.calls| && s.calls[id].Admitted?
    ensures CanFinish(flush, s, id, 2)
  {
    assert CallOk(s.db, s.calls[id]);
    var op := s.calls[id].req.op;
    if op.Patch? {
      CommitFinishes(flush, s, id);
    } else {
      var pending := FindPending(s.db.approvals, op.taskId);
      var step := Lookup(id, if pending.Some? then pending.value else 0);
      var next := Take(flush, s, step);
      TakeKeepsOk(flush, s, step);
      LookupExactly(flush, s, id, step.pick);
      hide CanFinish, SystemOk;
      if next.calls[id].Answered? {
        AnsweredHasFinished(flush, next, id, 1);
      } else {
        CommitFinishes(flush, next, id);
      }
      OneStepMore(flush, s, step, id, 1);
    }
  }

  /** In every state of every execution a call in flight can be answered by at most three more steps of its
      own, whatever the others have done. */
  lemma CallsCanFinish(flush: Flush, steps: seq<Step>, id: nat)
    requires id < |State(flush, steps).calls|
    ensures CanFinish(flush, State(flush, steps), id, 3)
  {
    var s := State(flush, steps);
    StateIsOk(flush, steps);
    hide CanFinish, SystemOk, State;
    match s.calls[id]
    case Loaded(_, _) =>
      var next := Take(flush, s, Gate(id));
      GateExactly(flush, steps, id);
      TakeKeepsOk(flush, s, Gate(id));
      if next.calls[id].Answered? {
        AnsweredHasFinished(flush, next, id, 2);
      } else {
        AdmittedFinishes(flush, next, id);
      }
      OneStepMore(flush, s, Gate(id), id, 2);
    case Admitted(_, _) =>
      AdmittedFinishes(flush, s, id);
      FinishLater(flush, s, id, 2, 3);
    case Answered(_, _) => AnsweredHasFinished(flush, s, id, 3);
    case _ =>
      CommitFinishes(flush, s, id);
      FinishLater(flush, s, id, 1, 3);
  }

  lemma FinishLater(flush: Flush, s: System, id: nat, m: nat, n: nat)
    requires m <= n && CanFinish(flush, s, id, m)
    ensures CanFinish(flush, s, id, n)
  {
  }
}
