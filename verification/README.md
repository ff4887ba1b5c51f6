# TeamOps: the approval workflow, verified

A Dafny model of the TeamOps API: the tenant database (users, organizations, memberships, projects,
tasks, approvals, labels, attached labels) and the endpoints that change it.  It proves what every run
of requests keeps, what is still true when requests interleave, and where the documentation promises
more than the code does.

`dafny verify dfyconfig.toml` checks the whole project.

## How it is laid out

| module | what it is |
|---|---|
| `Models`, `Rbac`, `Deps` | the rows and tables, the role order, the three gates |
| `ApprovalService`, `TaskService`, `OrgService`, `ProjectService`, `LabelService` (Services.dfy) | the effect of each service call, as a function on the tables |
| `Api` | `Refusal` (gate and guard of each endpoint), `Serve` (the service behind it), `Handle` (one request), `Run` (a list of requests from an empty database) |
| `Store` | the service as objects: `Database`, whose methods change the tables in place, and `Application`, which owns one behind the endpoints, with a ghost history; a valid application's tables are `Run(history)` |
| `Runs`, `Invariants` | what every request preserves, and the inductive invariant of the reachable states |
| `Acceptance`, `AuditTrail`, `Tenancy`, `Provenance`, `Progress`, `Monotonicity`, `Patches`, `Labels`, `Paging` | theorems over all runs |
| `Interleaving`, `Reduction` | many requests in flight, each split into read, gate, lookup and commit; when that changes nothing |
| `Protocol` | exactly what each step of a call does in any state, and what the columns hold as a result |
| `Overlap`, `Races`, `Counterexamples` | what survives every interleaving, exactly which commits break the rest, and executions in which they do |
| `Sorting`, `Scenario` | insertion in order; the small state the counterexamples start from |

A table is a sequence in the order in which its rows were committed, and the id of a row is its
position, so that a new id is fresh.  A commit is atomic.  The caller of a request is an
authenticated user id and the clock read by a decision is a parameter of the request.  A reachable state is `Run(reqs)` for any
list of requests, accepted or refused.

## Where code and documentation disagree

* README.md:74-75 of the repository promises that every task that reaches Done has an approver on
  record, app/models/approval.py:21-24 says approving is the only path there, and a comment at
  app/services/approval_service.py:51 calls it the only code path that sets the status.  Creating a task
  takes its status from the body unguarded (app/api/v1/projects.py:71), so a task can be DONE from
  birth.  `AuditTrail.GuaranteeFails` is such a run; `AuditTrail.GuaranteeExactly` proves that the
  promise holds throughout a run if and only if the run accepts no creation with the status DONE.
* Nothing in the tables stops two approval rows of one task from being pending at once
  (app/models/approval.py:27-52).  Served one at a time they never are (`Invariants.RunInv`), nor when no
  two overlapping requests assign one column of a task (`Reduction.ReductionTheorem`).  Under any
  interleaving they are if and only if a request for approval commits while its task has a pending row
  (`Races.OnePendingExactly`); `Counterexamples.TwoPendingRows` gets there, and one approval later
  the task is Done with a pending row as its newest (`Counterexamples.DoneWithARowPending`;
  `Races.PendingNotDoneExactly` and `Races.DoneApprovedExactly` say exactly when).
* An ORM session writes at commit only the columns whose value differs from the loaded one.  With
  overlapping requests a task can then stay Done on a REJECTED row (`Counterexamples.DoneOnARejection`).
  A decided row signed by a manager survives always (`Overlap.DoneIsBacked`); an approval on record
  survives if and only if no commit rejects the only approved row of a Done task it had loaded
  IN_PROGRESS (`Races.DoneOnRecordExactly`), which cannot happen if commits write every column they
  assign.  Likewise a decision without notes leaves those of a decision it overwrites
  (`Protocol.RowsTellTheirStory`).  Every other theorem about interleavings holds for both ways of writing.
* It is not so that raising a role can only help in any list of requests: a request the raise lets
  through may use up what a later one needs (`Monotonicity.UnlockingParts`).  The two runs stay alike if
  and only if no request that needs the raise changes anything (`Monotonicity.RaisedRunExactly`), so
  certainly if the raised user sends none whose minimum lies between the two roles
  (`Monotonicity.RaisedRun`).

## Model

| member | source | states |
|---|---|---|
| `AuditTrail.SerialAudit` | app/services/approval_service.py:40-54 | in every reachable state a Done task has no approval row and was created DONE, or its newest row is an approval by a reviewer who still holds Manager or higher in the org owning its project |
| `AuditTrail.GuaranteeExactly` | app/api/v1/projects.py:56-76 | "every Done task has an approver on record" holds at every moment of a run iff the run accepts no task created DONE |
| `AuditTrail.GuaranteeFails` | app/services/task_service.py:25-49 | a run after which a Done task has no approver |
| `AuditTrail.DoneWithoutRows` | app/services/task_service.py:20-22 | a task is Done without approval rows iff it was created DONE and has been Done at every moment since |
| `AuditTrail.Alternation` | app/services/approval_service.py:28-71 | a task's accepted workflow events alternate request and decision; its k-th row is the k-th request with its verdict; a row is pending iff the last event is a request |
| `AuditTrail.Counting` | app/services/approval_service.py:40-54 | over any run a task has as many APPROVED rows as moves from not-Done to Done after its creation |
| `AuditTrail.EntersDoneExactly` | app/services/approval_service.py:51 | a request moves an existing task into Done iff it is an accepted approval of it |
| `AuditTrail.StatusesStep` | app/services/approval_service.py:28-71 | how each request moves the list of a task's row statuses |
| `Invariants.RunInv` | app/services/approval_service.py:19-71 | every reachable state has sound foreign keys, unique rows, at most the newest row of a task pending, no pending row on a Done task, every decided row signed by a manager, the newest row of a Done task approved, labels within their org, an owner in each org |
| `Invariants.StepKeepsPending` | app/services/approval_service.py:28-37 | "only the newest row is pending" and "a task with a pending row is not Done" are kept together by every request |
| `Invariants.StepKeepsSigned` | app/api/v1/tasks.py:78-107 | every decided row stays signed by someone who manages its task |
| `Invariants.StepKeepsDone` | app/services/approval_service.py:40-71 | the newest row of a Done task stays approved |
| `Invariants.StepIntoDone` | app/services/task_service.py:11-22 | only an accepted approval by a Manager or higher takes an existing task into Done |
| `Invariants.StepOnTask` | app/services/approval_service.py:28-71 | what an accepted request, approval and rejection each leave in both tables |
| `Invariants.StepLeavesRows` | app/services/approval_service.py:19-25 | any other request leaves the approval rows of the task alone |
| `Invariants.StepKeepsReferential` | app/models/task.py:38-72 | every request keeps foreign keys and NOT NULL columns sound |
| `Invariants.StepKeepsUniqueAccounts` | app/models/org_member.py:21-22 | every request keeps emails unique and one membership per user and org |
| `Invariants.StepKeepsUniqueLabels` | app/models/label.py:12 | every request keeps label names unique in an org and attached pairs unrepeated |
| `Invariants.StepKeepsIsolated` | app/api/v1/tasks.py:110-130 | every request keeps attached labels within the task's org |
| `Runs.AppendOnly` | app/services/approval_service.py:28-71 | between any two moments of a run no approval row disappears, a decided row never changes, memberships, projects and labels never change and no task leaves its project |
| `Rbac.RolesAbove` | app/core/rbac.py:3-17 | a role satisfies a minimum iff it is that role or one above it, in the order owner, admin, manager, member |
| `Runs.RefusedChangesNothing` | app/services/label_service.py:17-21 | a refused request leaves every table as it was |
| `Acceptance.AnsweredExactly` | app/api/v1/tasks.py:39-139 | in every reachable state each of the twelve requests gets exactly the answer and leaves exactly the tables that the rows call for: accepted iff the caller's role, the rows and the body allow it; otherwise refused with the one error that applies, changing nothing; the new or changed row carries every column as sent, no other row changes, and the answer is its id |
| `Acceptance.AcceptedExactly` | app/api/deps.py:53-170 | in every reachable state each of the twelve requests is accepted iff the rows allow it, with the roles that may do it listed |
| `Acceptance.TaskGateMeans` | app/api/deps.py:134-170 | which of 404, 401 and 403 the task gate answers, or none, from the rows |
| `Acceptance.InvitationAddsRow` | app/services/org_service.py:40-57 | an accepted invitation adds exactly the row for that org, the user with that email and the role asked for |
| `Acceptance.SoundPatchExactly` | app/schemas/task.py:18-29 | a patch gets through guard and commit iff it does not finish the task, nulls no required column and assigns to a known user |
| `Tenancy.GateAgreement` | app/api/deps.py:53-170 | task, project and org gate agree along task, project, org; they admit exactly the users with a membership in one of the roles from the minimum up; the missing-project branch is never taken |
| `Tenancy.ManagesMeans` | app/core/rbac.py:11-17 | whoever manages a task, in every theorem here, is a Manager, Admin or Owner of the org that owns its project |
| `Tenancy.TenantIsolation` | app/api/v1/tasks.py:110-130 | an attached label belongs to the org that owns the task's project |
| `Tenancy.StrangersChangeNothing` | app/api/deps.py:53-170 | any list of requests from outside an org leaves all its memberships, projects, labels, tasks, approvals and attached labels as they were |
| `Tenancy.StrangerStaysOut` | app/api/deps.py:141-170 | an accepted request names no task, and creates none, in an org the caller is not in |
| `Provenance.Provenance` | app/services/org_service.py:24-57 | every membership traces back through a strictly earlier chain of inviters, each Admin or higher in the same org, to the creator's OWNER row |
| `Provenance.Origin` | app/api/v1/orgs.py:32-60 | every membership row is a founder's or was added by the invitation of an earlier Admin's row |
| `Provenance.FounderStays` | app/services/org_service.py:24-37 | every org still has its creator as an owner |
| `Progress.NoTaskIsStuck` | app/services/approval_service.py:28-54 | from every reachable state an owner of the task's org can close it with at most two requests, both accepted, leaving it Done with its newest row approved by that owner |
| `Progress.PendingOutlivesEdits` | app/services/task_service.py:65-70 | after any requests but decisions of the task, its pending row is unchanged and a manager's approval and rejection both succeed on it |
| `Progress.PendingIsDecidable` | app/services/approval_service.py:40-71 | the exact response to a manager's approval and rejection of a pending row |
| `Monotonicity.RaisedStep` | app/core/rbac.py:3-17 | a request allowed before a role is raised is allowed after it, with the same answer and effect apart from that row |
| `Monotonicity.RaisedRunExactly` | app/api/deps.py:76-170 | in two runs of one list, the second with the role raised, the tables differ at every moment in that row alone iff no request that passes its gate only by the raise changes anything; then every request allowed in the first is allowed in the second with the same answer |
| `Monotonicity.RaisedRun` | app/api/deps.py:76-170 | if the raised user sends no request whose minimum role lies above the old role and within the new, all answers of the two runs agree and the tables differ in that row alone |
| `Monotonicity.RaisedGates` | app/core/rbac.py:11-17 | a raise changes a gate's answer iff the gate checks that row against a minimum above the old role and within the new; the answer was 403 |
| `Monotonicity.UnlockingParts` | app/api/v1/tasks.py:78-91 | two reachable states that differ in one raised role, from which the raise lets a request through and a later one, allowed before, is refused |
| `Patches.PatchesAreOnePatch` | app/services/task_service.py:65-70 | any sequence of accepted patches to a task equals one accepted patch with their merged keys |
| `Patches.PatchesNeverFinish` | app/services/task_service.py:20-22 | no sequence of patches takes a task into Done |
| `Patches.PatchReads` | app/services/task_service.py:65-70 | after a patch each column reads the patch's value for it, or what it read before; project and reporter stay |
| `Patches.OverrideMerge` | app/services/task_service.py:65-70 | one patch after another is the merged patch |
| `Labels.RowsRefineSet` | app/services/label_service.py:31-48 | a pair has exactly one row if the last accepted call on it was an attach and none otherwise |
| `Labels.LabelsListStrictly` | app/services/label_service.py:26-28 | listing by name gives exactly the org's labels, strictly ascending under any collation |
| `Paging.PageExactly` | app/services/task_service.py:52-62 | a page holds exactly the tasks of the project (projects of the org) of which at least `offset` and fewer than `offset + limit` others are newer, newest first |
| `Paging.PagingNeverMisses` | app/services/project_service.py:31-41 | walking offsets 0, L, 2L, ... while any requests are served between the reads and whatever the creation times of new rows: once a page is short, every task of the project (project of the org) there was at the first read has been on some page |
| `Paging.SeenOrAhead` | app/services/task_service.py:52-62 | if rows only move back in a listing from read to read, a row of the first has been on a page or lies at or beyond the offset reached |
| `Paging.ListingMovesBack` | app/models/base.py:24-26 | as rows are added with any `created_at`, each listed row keeps its position or moves back |
| `Paging.NewestFirstSorted` | app/services/project_service.py:31-41 | a listing holds exactly the rows of its parent, by strictly descending `created_at` |
| `Reduction.ReductionTheorem` | app/services/approval_service.py:19-71 | in every execution where no two overlapping requests assign the same column of a task, tables and answers are at each moment those of serving the answered requests one at a time, each once, in order of answer, and every serial invariant holds |
| `Reduction.CallsAreArrivals` | app/api/v1/tasks.py:39-107 | the calls of the interleaved system are the arrived requests one for one |
| `Reduction.CommitIsHandle` | app/services/task_service.py:65-70 | a commit, when the columns it assigns and the row it looked up are as read, does what serving the request at once would do; `Protocol.CommitExactly` is for reads of any age |
| `Reduction.StepIsServedOrSilent` | app/services/approval_service.py:19-25 | each step of the interleaved system changes no table or answers one call as if served at that moment |
| `Reduction.StepLeavesColumn` | app/services/task_service.py:65-70 | serving a request leaves every column of every task alone that it does not assign |
| `Protocol.ArrivalExactly` | app/api/v1/tasks.py:39-107 | under every interleaving an arriving request reads the task row as it is then, or is answered whole as the rows call for |
| `Protocol.GateExactly` | app/api/deps.py:141-170 | the gates and the guard decide on the memberships of that moment, with the error that applies |
| `Protocol.LookupExactly` | app/services/approval_service.py:19-32 | the lookup answers 409, or goes on with no row or with a pending row, by the rows of that moment |
| `Protocol.CommitExactly` | app/services/task_service.py:65-70 | under every interleaving a commit writes each column it assigns with the value carried (or, when only changed columns are written, those whose value differs from the one read), leaves every other column and row alone, and fails iff the patch nulls a required column or names an unknown assignee |
| `Protocol.LastWriterWins` | app/services/task_service.py:25-70 | under every interleaving a column of a task reads the value of the last accepted creation or commit that wrote it |
| `Protocol.RowsTellTheirStory` | app/services/approval_service.py:28-71 | under every interleaving a row holds task and requester of the request that added it, verdict, reviewer and time of the last decision committed on it, and its notes, or those it found |
| `Protocol.CallsCanFinish` | app/api/v1/tasks.py:39-107 | in every state of every execution a call in flight can be answered by at most three more steps of its own |
| `Overlap.CoreSurvives` | app/models/org_member.py:18-35 | under every interleaving: sound foreign keys and required columns, unique accounts, memberships and labels, decided rows signed by a manager, labels within the org of their task, an owner in each org |
| `Overlap.DoneIsBacked` | app/services/approval_service.py:40-71 | under every interleaving, overlaps included, a Done task was created DONE or has a decided row signed by a Manager or higher of its org; an approved one if commits write all they assign |
| `Overlap.DecidedForGood` | app/services/approval_service.py:47-50 | under every interleaving a row once decided is never pending again and stays with its task and requester |
| `Races.OnePendingExactly` | app/services/approval_service.py:28-37 | a task has at most one pending row at every moment, and only its newest, iff no request for approval commits while its task has a pending row |
| `Races.PendingNotDoneExactly` | app/services/approval_service.py:28-54 | no Done task has a pending row at any moment iff no commit leaves its task Done while it adds a pending row or another row is pending |
| `Races.DoneApprovedExactly` | app/services/approval_service.py:28-71 | the newest row of a Done task is always approved iff no commit leaves its task Done while it adds a row, rejects the newest, or decides an older one under an unapproved newest |
| `Races.DoneOnRecordExactly` | app/services/approval_service.py:57-71 | every Done task not created DONE has an approval on record at every moment iff no commit rejects, without writing the status back, the only approved row of such a task |
| `Counterexamples.TwoPendingRows` | app/services/approval_service.py:28-37 | two overlapping requests leave two pending rows |
| `Counterexamples.DoneWithARowPending` | app/services/approval_service.py:40-54 | an approval after them leaves the task Done with its newest row pending |
| `Counterexamples.DoneOnARejection` | app/services/approval_service.py:57-71 | an overlapping rejection can leave a task Done on a rejected row only |
| `Store.Database.RequestApproval` | app/services/approval_service.py:28-37 | refuses iff a row is pending; otherwise appends a pending row by the requester and sets IN_REVIEW |
| `Store.Database.ApproveTask` | app/services/approval_service.py:40-54 | succeeds iff a row is pending; stamps that row with verdict, reviewer, time and notes, sets DONE, changes nothing else |
| `Store.Database.RejectTask` | app/services/approval_service.py:57-71 | the same with REJECTED and IN_PROGRESS |
| `Store.Database.CreateTask` | app/services/task_service.py:25-49 | appends the task with every column of the body and answers its id, or fails at commit iff the assignee is unknown |
| `Store.Database.UpdateTask` | app/services/task_service.py:65-70 | the assignment loop, in any order of the keys, leaves each column as the patch says and other rows alone; fails at commit iff a required column would be null or the assignee unknown |
| `Store.Database.RegisterUser` | app/services/auth_service.py:20-29 | appends an account and answers its id, or 409 when the email is taken |
| `Store.Database.CreateOrganization` | app/services/org_service.py:24-37 | appends the org and its creator's OWNER row and answers the org's id |
| `Store.Database.InviteMember` | app/services/org_service.py:40-57 | 404 iff no account has that email, 409 if that user is a member, otherwise appends the membership and answers its id |
| `Store.Database.CreateProject` | app/services/project_service.py:10-28 | appends the project and answers its id |
| `Store.Database.CreateLabel` | app/services/label_service.py:14-23 | appends the label and answers its id, or rolls back with 409 when its name is taken in the org |
| `Store.Database.AttachLabel` | app/services/label_service.py:31-38 | the pair is attached once, every other pair is as it was |
| `Store.Database.DetachLabel` | app/services/label_service.py:41-48 | the rows are those before without the pair |
| `Store.Application.Serve` | app/api/v1/tasks.py:39-139 | one request through gate, guard and service: the answer and the tables are those the rows call for (`Acceptance.AnsweredExactly`), and remain those of the history |
| `Store.AssignOne` | app/services/task_service.py:66-67 | one more assignment of the loop is one more key of the patch |
| `Store.Application.ValidMeansInvariant` | app/models/approval.py:18-25 | every valid application satisfies the invariant of the reachable states |

## Left out

- Tokens, passwords, login and refresh: a request carries the id of its authenticated caller.
- Request parsing, field lengths, the bounds on `limit` and `offset`, response bodies: a request is accepted with a row id or refused with a kind of error.
- Read endpoints other than the paged and the by-name listing: they return rows the theorems already speak of.
- Row ids as random UUIDs: an id is a position, which no property depends on.
- Equal `created_at` values: the order of ties, which SQL does not fix, is fixed here from read to read.
- Approval rows by their `created_at`: the newest row of a task is the last one committed.
- `updated_at`, and comparing `reviewed_at` with `created_at`, which come from different clocks.
- Interleaving inside the other endpoints (invitation, labels, creation): they are single steps here, guarded in the database by unique constraints.
- Removing or deactivating users and the foreign-key cascades: no endpoint does either.
- Rows as separate mutable objects shared within a session: a table is a sequence the methods reassign, so aliasing of ORM instances is not captured; what a session has read and not yet written is captured in `Interleaving`.
- Store.Database.RegisterUser: does not model the password hash.
