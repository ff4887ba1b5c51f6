/** Executions in which overlapping calls break what the serial service keeps. */
module Counterexamples {
  import opened Models
  import opened ApprovalService
  import opened Api
  import opened Invariants
  import opened Interleaving
  import opened Races
  import opened Scenario

  const APPROVE := Req(0, Approve(0, None, 1))
  const REJECT := Req(0, Reject(0, None, 2))

  /** Ann, who owns the org, passes the gates of every workflow call. */
  lemma AnnPasses(db: Tables, op: Op)
    requires db.users == READY.users && db.members == READY.members && db.projects == READY.projects
    requires |db.tasks| == 1 && db.tasks[0].projectId == 0
    requires IsWorkflow(op) && op.taskId == 0
    ensures Refusal(db, Req(0, op)).None?
  {
  }

  /** Call `n` gets through its gate and looks up row `pick`. */
  function Opening(n: nat, pick: nat): seq<Step> {
    [Gate(n)] + [Lookup(n, pick)]
  }

  lemma OpeningEnds(flush: Flush, s: System, n: nat, pick: nat)
    requires n < |s.calls| && s.calls[n].Loaded? && IsWorkflow(s.calls[n].req.op)
    requires Refusal(s.db, s.calls[n].req).None?
    requires var t := s.calls[n].req.op.taskId;
             if s.calls[n].req.op.Request? then FindPending(s.db.approvals, t).None?
             else pick < |s.db.approvals| && s.db.approvals[pick].PendingFor(t)
    ensures var Loaded(req, task) := s.calls[n];
            After(flush, s, Opening(n, pick)) == s.(calls := s.calls[n :=
              if req.op.Request? then FoundNone(req, task) else Found(req, task, pick, s.db.approvals[pick])])
  {
    hide Refusal;
    var admitted := Take(flush, s, Gate(n));
    AfterCons(flush, s, Gate(n), [Lookup(n, pick)]);
    AfterCons(flush, admitted, Lookup(n, pick), []);
    assert [Lookup(n, pick)] + [] == [Lookup(n, pick)];
  }

  lemma TakeBegin(flush: Flush, s: System, req: Req)
    requires IsSplit(req.op) && req.op.taskId < |s.db.tasks|
    ensures Take(flush, s, Begin(req)) == s.(calls := s.calls + [Loaded(req, s.db.tasks[req.op.taskId])])
  {
  }

  lemma TakeCommit(flush: Flush, s: System, id: nat)
    requires CanCommit(s, id)
    ensures var committed := CommitCall(flush, s.db, s.calls[id]);
            Take(flush, s, Commit(id)) == Answer(s, id, committed.tables, committed.outcome)
  {
  }

  /** One task with these approval rows. */
  function WithRows(status: TaskStatus, rows: seq<Approval>): Tables {
    Workspace(status).(approvals := rows)
  }

  const ROW := NewRequest(0, 0)
  const STAMPED := Stamped(ROW, Approved, 0, None, 1)
  const SPOILT := Stamped(ROW, Rejected, 0, None, 2)

  const TWO_REQUESTS := [Begin(ASK)] + ([Begin(ASK)] + (Opening(0, 0) + (Opening(1, 0) + ([Commit(0)] + [Commit(1)]))))
  const BOTH_ASKED := System(WithRows(InReview, [ROW, ROW]), [Answered(ASK, Ok(0)), Answered(ASK, Ok(1))], [0, 1])

  lemma AskCommits(flush: Flush)
    ensures var ready := FoundNone(ASK, ATask(Todo));
            && CommitCall(flush, Workspace(Todo), ready) == Response(WithRows(InReview, [ROW]), Ok(0))
            && CommitCall(flush, WithRows(InReview, [ROW]), ready) == Response(WithRows(InReview, [ROW, ROW]), Ok(1))
  {
    var ready := FoundNone(ASK, ATask(Todo));
    var once := CommitCall(flush, Workspace(Todo), ready).tables;
    assert once.approvals == [ROW] && once.tasks == [ATask(InReview)];
    var twice := CommitCall(flush, WithRows(InReview, [ROW]), ready).tables;
    assert twice.approvals == [ROW, ROW] && twice.tasks == [ATask(InReview)];
  }

  lemma BothLoad(flush: Flush)
    ensures After(flush, Start(Workspace(Todo)), TWO_REQUESTS)
            == After(flush, System(Workspace(Todo), [Loaded(ASK, ATask(Todo)), Loaded(ASK, ATask(Todo))], []),
                     Opening(0, 0) + (Opening(1, 0) + ([Commit(0)] + [Commit(1)])))
  {
    hide Handle, Refusal, Take, After, CommitCall;
    var db, task := Workspace(Todo), ATask(Todo);
    var loaded := Loaded(ASK, task);
    var s0 := Start(db);
    AfterCons(flush, s0, Begin(ASK), [Begin(ASK)] + (Opening(0, 0) + (Opening(1, 0) + ([Commit(0)] + [Commit(1)]))));
    TakeBegin(flush, s0, ASK);
    var s1 := System(db, [loaded], []);
    assert s0.calls + [loaded] == s1.calls;
    AfterCons(flush, s1, Begin(ASK), Opening(0, 0) + (Opening(1, 0) + ([Commit(0)] + [Commit(1)])));
    TakeBegin(flush, s1, ASK);
    var s2 := System(db, [loaded, loaded], []);
    assert s1.calls + [loaded] == s2.calls;
  }

  lemma BothAsk(flush: Flush)
    ensures After(flush, Start(Workspace(Todo)), TWO_REQUESTS) == BOTH_ASKED
  {
    hide Handle, Refusal, Take, After, CommitCall;
    var db, task := Workspace(Todo), ATask(Todo);
    var loaded, ready := Loaded(ASK, task), FoundNone(ASK, task);
    AnnPasses(db, ASK.op);
    AskCommits(flush);
    BothLoad(flush);
    var s2 := System(db, [loaded, loaded], []);
    AfterConcat(flush, s2, Opening(0, 0), Opening(1, 0) + ([Commit(0)] + [Commit(1)]));
    OpeningEnds(flush, s2, 0, 0);
    var s3 := System(db, [ready, loaded], []);
    assert s2.calls[0 := ready] == s3.calls;
    AfterConcat(flush, s3, Opening(1, 0), [Commit(0)] + [Commit(1)]);
    OpeningEnds(flush, s3, 1, 0);
    var s4 := System(db, [ready, ready], []);
    assert s3.calls[1 := ready] == s4.calls;
    TakeCommit(flush, s4, 0);
    TakeCommit(flush, Take(flush, s4, Commit(0)), 1);
    CommitsLast(flush, s4, 0, 1);
    var last := Take(flush, Take(flush, s4, Commit(0)), Commit(1));
    assert last.calls == BOTH_ASKED.calls && last.order == BOTH_ASKED.order;
  }

  /** The two commits that end an execution. */
  lemma CommitsLast(flush: Flush, s: System, a: nat, b: nat)
    requires a != b && CanCommit(s, a) && CanCommit(Take(flush, s, Commit(a)), b)
    ensures After(flush, s, [Commit(a)] + [Commit(b)]) == Take(flush, Take(flush, s, Commit(a)), Commit(b))
  {
    hide Take;
    AfterCons(flush, s, Commit(a), [Commit(b)]);
    AfterCons(flush, Take(flush, s, Commit(a)), Commit(b), []);
    assert [Commit(b)] + [] == [Commit(b)];
  }

  /** Two overlapping requests both find nothing pending: the task ends up with two pending rows, which
      no serial run allows. */
  lemma TwoPendingRows(flush: Flush)
    ensures var s := After(flush, Start(Run(Setup(Todo))), TWO_REQUESTS);
            && s.db.approvals == [ROW, ROW]
            && !OnePending(s.db)
            && !PendingIsNewest(s.db)
  {
    hide Handle, Take, After;
    SetupRuns(Todo);
    BothAsk(flush);
    var rows := BOTH_ASKED.db.approvals;
    assert rows[0].taskId == rows[1].taskId && rows[0].status.Pending? && rows[1].status.Pending?;
  }

  const APPROVE_FIRST := [Begin(APPROVE)] + (Opening(2, 0) + [Commit(2)])

  /** An approval then decides the older of the two: the task is Done, its newest row pending. */
  lemma DoneWithARowPending(flush: Flush)
    ensures var s := After(flush, Start(Run(Setup(Todo))), TWO_REQUESTS + APPROVE_FIRST);
            && s.db == WithRows(Done, [STAMPED, ROW])
            && !PendingIsNotDone(s.db)
            && !DoneIsApproved(s.db)
  {
    hide Handle, Refusal, Take, After, CommitCall;
    SetupRuns(Todo);
    BothAsk(flush);
    AfterConcat(flush, Start(Workspace(Todo)), TWO_REQUESTS, APPROVE_FIRST);
    FirstApproved(flush);
    var db := WithRows(Done, [STAMPED, ROW]);
    assert db.approvals[1].status.Pending? && db.tasks[0].IsDone();
    assert IsNewest(db.approvals, 0, 1);
  }

  lemma ApprovalCommits(flush: Flush)
    ensures CommitCall(flush, WithRows(InReview, [ROW, ROW]), Found(APPROVE, ATask(InReview), 0, ROW))
            == Response(WithRows(Done, [STAMPED, ROW]), Ok(0))
  {
    var next := CommitCall(flush, WithRows(InReview, [ROW, ROW]), Found(APPROVE, ATask(InReview), 0, ROW)).tables;
    assert next.approvals == [STAMPED, ROW] && next.tasks == [ATask(Done)];
  }

  lemma FirstApproved(flush: Flush)
    ensures After(flush, BOTH_ASKED, APPROVE_FIRST).db == WithRows(Done, [STAMPED, ROW])
  {
    hide Handle, Refusal, Take, After, CommitCall;
    var db, task := WithRows(InReview, [ROW, ROW]), ATask(InReview);
    var asked := BOTH_ASKED.calls;
    AnnPasses(db, APPROVE.op);
    AfterCons(flush, BOTH_ASKED, Begin(APPROVE), Opening(2, 0) + [Commit(2)]);
    TakeBegin(flush, BOTH_ASKED, APPROVE);
    var s1 := BOTH_ASKED.(calls := asked + [Loaded(APPROVE, task)]);
    AfterConcat(flush, s1, Opening(2, 0), [Commit(2)]);
    OpeningEnds(flush, s1, 2, 0);
    var s2 := BOTH_ASKED.(calls := asked + [Found(APPROVE, task, 0, ROW)]);
    assert s1.calls[2 := Found(APPROVE, task, 0, ROW)] == s2.calls;
    CommitLast(flush, s2, 2);
    TakeCommit(flush, s2, 2);
    ApprovalCommits(flush);
  }

  lemma CommitLast(flush: Flush, s: System, id: nat)
    ensures After(flush, s, [Commit(id)]) == Take(flush, s, Commit(id))
  {
    hide Take;
    AfterCons(flush, s, Commit(id), []);
    assert [Commit(id)] + [] == [Commit(id)];
  }

  const LATE_REJECTION := [Begin(REJECT)] + ([Begin(ASK)] + (Opening(1, 0) + ([Commit(1)] + LATE_DECISIONS)))
  const LATE_DECISIONS := [Begin(APPROVE)] + (Opening(2, 0) + (Opening(0, 0) + ([Commit(2)] + [Commit(0)])))

  const ASKING := FoundNone(ASK, ATask(InProgress))
  const REJECTING := Found(REJECT, ATask(InProgress), 0, ROW)
  const APPROVING := Found(APPROVE, ATask(InReview), 0, ROW)
  const REJECTION_LOADED := System(
    WithRows(InReview, [ROW]), [Loaded(REJECT, ATask(InProgress)), Answered(ASK, Ok(0))], [1])

  lemma LateCommits()
    ensures var flush, asked, approved := ChangedColumns, WithRows(InReview, [ROW]), WithRows(Done, [STAMPED]);
            && CommitCall(flush, Workspace(InProgress), ASKING) == Response(asked, Ok(0))
            && CommitCall(flush, asked, APPROVING) == Response(approved, Ok(0))
            && CommitCall(flush, approved, REJECTING) == Response(WithRows(Done, [SPOILT]), Ok(0))
  {
  }

  lemma AskedAfterLoading()
    ensures After(ChangedColumns, Start(Workspace(InProgress)), LATE_REJECTION)
            == After(ChangedColumns, REJECTION_LOADED, LATE_DECISIONS)
  {
    hide Handle, Refusal, Take, After, CommitCall;
    var flush, db, task := ChangedColumns, Workspace(InProgress), ATask(InProgress);
    AnnPasses(db, ASK.op);
    LateCommits();
    var s0 := Start(db);
    AfterCons(flush, s0, Begin(REJECT), [Begin(ASK)] + (Opening(1, 0) + ([Commit(1)] + LATE_DECISIONS)));
    TakeBegin(flush, s0, REJECT);
    var s1 := System(db, [Loaded(REJECT, task)], []);
    assert s0.calls + [Loaded(REJECT, task)] == s1.calls;
    AfterCons(flush, s1, Begin(ASK), Opening(1, 0) + ([Commit(1)] + LATE_DECISIONS));
    TakeBegin(flush, s1, ASK);
    var s2 := System(db, [Loaded(REJECT, task), Loaded(ASK, task)], []);
    assert s1.calls + [Loaded(ASK, task)] == s2.calls;
    AfterConcat(flush, s2, Opening(1, 0), [Commit(1)] + LATE_DECISIONS);
    OpeningEnds(flush, s2, 1, 0);
    var s3 := System(db, [Loaded(REJECT, task), ASKING], []);
    assert s2.calls[1 := ASKING] == s3.calls;
    AfterCons(flush, s3, Commit(1), LATE_DECISIONS);
    TakeCommit(flush, s3, 1);
    var s4 := Take(flush, s3, Commit(1));
    assert s4.calls == REJECTION_LOADED.calls && s4.order == REJECTION_LOADED.order;
  }

  /** A rejection that has loaded the task before its approval was asked for overwrites the approved row
      but, finding the status it assigns equal to the one it loaded, does not write the status back:
      the task stays Done with a REJECTED row as its only one. */
  lemma DoneOnARejection()
    ensures var s := After(ChangedColumns, Start(Run(Setup(InProgress))), LATE_REJECTION);
            && s.db == WithRows(Done, [SPOILT])
            && s.db.tasks[0].IsDone() && !HasApproval(s.db, 0)
  {
    hide Handle, Refusal, HasApproval, Take, After, CommitCall;
    var flush, db := ChangedColumns, WithRows(InReview, [ROW]);
    SetupRuns(InProgress);
    AskedAfterLoading();
    AnnPasses(db, APPROVE.op);
    AnnPasses(db, REJECT.op);
    LateCommits();
    var rejecting := Loaded(REJECT, ATask(InProgress));
    var s4 := REJECTION_LOADED;
    AfterCons(flush, s4, Begin(APPROVE), Opening(2, 0) + (Opening(0, 0) + ([Commit(2)] + [Commit(0)])));
    TakeBegin(flush, s4, APPROVE);
    var s5 := System(db, [rejecting, Answered(ASK, Ok(0)), Loaded(APPROVE, ATask(InReview))], [1]);
    assert s4.calls + [Loaded(APPROVE, ATask(InReview))] == s5.calls;
    AfterConcat(flush, s5, Opening(2, 0), Opening(0, 0) + ([Commit(2)] + [Commit(0)]));
    OpeningEnds(flush, s5, 2, 0);
    var s6 := System(db, [rejecting, Answered(ASK, Ok(0)), APPROVING], [1]);
    assert s5.calls[2 := APPROVING] == s6.calls;
    AfterConcat(flush, s6, Opening(0, 0), [Commit(2)] + [Commit(0)]);
    OpeningEnds(flush, s6, 0, 0);
    var s7 := System(db, [REJECTING, Answered(ASK, Ok(0)), APPROVING], [1]);
    assert s6.calls[0 := REJECTING] == s7.calls;
    TakeCommit(flush, s7, 2);
    TakeCommit(flush, Take(flush, s7, Commit(2)), 0);
    CommitsLast(flush, s7, 2, 0);
    SpoiltIsNoApproval(WithRows(Done, [SPOILT]));
  }

  lemma SpoiltIsNoApproval(db: Tables)
    requires db.approvals == [SPOILT]
    ensures !HasApproval(db, 0)
  {
  }
}
