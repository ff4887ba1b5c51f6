/** What one request, and then every run, does to the tables as a whole. */
module Runs {
  import opened Models
  import opened Api

  lemma {:induction false} RunFromConcat(db: Tables, before: seq<Req>, after: seq<Req>)
    ensures RunFrom(db, before + after) == RunFrom(RunFrom(db, before), after)
    decreases |after|
  {
    hide Handle;
    if after == [] {
      assert before + after == before;
    } else {
      var n := |after| - 1;
      var all := before + after;
      assert all[..|all| - 1] == before + after[..n] && all[|all| - 1] == after[n];
      RunFromConcat(db, before, after[..n]);
    }
  }

  lemma RunFromCons(db: Tables, req: Req, rest: seq<Req>)
    ensures RunFrom(db, [req] + rest) == RunFrom(Handle(db, req).tables, rest)
  {
    hide Handle;
    RunFromConcat(db, [req], rest);
    assert [req][..0] == [];
  }

  lemma RunFromStep(db: Tables, reqs: seq<Req>, i: nat)
    requires i < |reqs|
    ensures RunFrom(db, reqs[..i + 1]) == Handle(RunFrom(db, reqs[..i]), reqs[i]).tables
  {
    assert reqs[..i + 1][..i] == reqs[..i];
  }

  lemma RunStep(reqs: seq<Req>, i: nat)
    requires i < |reqs|
    ensures Run(reqs[..i + 1]) == Handle(Run(reqs[..i]), reqs[i]).tables
  {
    RunFromStep(EMPTY_TABLES, reqs, i);
  }

  /** A refused request leaves every table as it was. */
  lemma RefusedChangesNothing(db: Tables, req: Req)
    ensures !Accepts(db, req) ==> Handle(db, req).tables == db
  {
  }

  /** Rows are never removed from the tables other than task_labels; memberships, projects and labels
      never change; a task stays in its project. */
  ghost predicate TablesGrow(older: Tables, newer: Tables) {
    && older.users <= newer.users
    && older.orgs <= newer.orgs
    && older.members <= newer.members
    && older.projects <= newer.projects
    && older.labels <= newer.labels
    && |older.tasks| <= |newer.tasks|
    && (forall t :: 0 <= t < |older.tasks| ==> SameOrigin(older.tasks[t], newer.tasks[t]))
    && |older.approvals| <= |newer.approvals|
  }

  /** What no request ever takes away: the above, and a decided approval row is final. */
  ghost predicate Grows(older: Tables, newer: Tables) {
    && TablesGrow(older, newer)
    && (forall i :: 0 <= i < |older.approvals| ==> RowKept(older.approvals[i], newer.approvals[i]))
  }

  ghost predicate SameOrigin(older: Task, newer: Task) {
    older.projectId == newer.projectId && older.reporterId == newer.reporterId
  }

  ghost predicate RowKept(older: Approval, newer: Approval) {
    && older.taskId == newer.taskId
    && older.requestedBy == newer.requestedBy
    && (!older.status.Pending? ==> newer == older)
  }

  lemma TaskCallGrows(db: Tables, req: Req)
    requires NamesTask(req.op) && req.op.taskId < |db.tasks|
    ensures Grows(db, Serve(db, req).tables)
  {
  }

  lemma OtherCallGrows(db: Tables, req: Req)
    requires !NamesTask(req.op)
    ensures Grows(db, Serve(db, req).tables)
  {
  }

  lemma StepGrows(db: Tables, req: Req)
    ensures Grows(db, Handle(db, req).tables)
  {
    if Refusal(db, req).None? {
      if NamesTask(req.op) {
        TaskCallGrows(db, req);
      } else {
        OtherCallGrows(db, req);
      }
    }
  }

  lemma {:induction false} RunFromGrows(db: Tables, reqs: seq<Req>)
    ensures Grows(db, RunFrom(db, reqs))
  {
    hide Handle;
    if reqs != [] {
      var n := |reqs| - 1;
      RunFromGrows(db, reqs[..n]);
      StepGrows(RunFrom(db, reqs[..n]), reqs[n]);
    }
  }

  /** Append-only: between any two moments of a run nothing is lost, and a row that has left
      PENDING keeps its status, reviewer, time and notes for good. */
  lemma AppendOnly(reqs: seq<Req>, i: nat, j: nat)
    requires i <= j <= |reqs|
    ensures Grows(Run(reqs[..i]), Run(reqs[..j]))
  {
    hide Handle;
    assert reqs[..j] == reqs[..i] + reqs[i..j];
    RunFromConcat(EMPTY_TABLES, reqs[..i], reqs[i..j]);
    RunFromGrows(Run(reqs[..i]), reqs[i..j]);
  }

  /** A property that holds at the start, and from each moment to the next unless something breaks it,
      holds throughout exactly when nothing ever breaks it. */
  lemma {:induction false} HoldsThroughout(n: nat, holds: nat -> bool, breaks: nat -> bool)
    requires holds(0)
    requires forall k: nat :: k < n && holds(k) ==> (holds(k + 1) <==> !breaks(k))
    ensures (forall k: nat :: k <= n ==> holds(k)) <==> (forall k: nat :: k < n ==> !breaks(k))
  {
    if n > 0 {
      HoldsThroughout(n - 1, holds, breaks);
      assert holds(n - 1) ==> (holds(n) <==> !breaks(n - 1));
    }
  }
}
