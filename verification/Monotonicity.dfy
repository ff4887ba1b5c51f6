/** Raising one user's role: what it keeps in a second run of the same requests. */
module Monotonicity {
  import opened Models
  import opened Rbac
  import opened Deps
  import opened ApprovalService
  import opened OrgService
  import opened Api
  import opened Runs
  import opened Scenario

  /** The same tables, but for a role that is at least as high in membership row `m`. */
  ghost predicate Raised(low: Tables, high: Tables, m: nat) {
    && m < |low.members| == |high.members|
    && high.members[m].role in AtLeast(low.members[m].role)
    && high == low.(members := low.members[m := low.members[m].(role := high.members[m].role)])
  }

  lemma RaisedFinds(low: Tables, high: Tables, m: nat, orgId: nat, userId: nat)
    requires Raised(low, high, m)
    ensures FindMember(high.members, orgId, userId) == FindMember(low.members, orgId, userId)
  {
    var i, j := FindMember(low.members, orgId, userId), FindMember(high.members, orgId, userId);
    assert forall k :: 0 <= k < |low.members| ==>
                         && high.members[k].orgId == low.members[k].orgId
                         && high.members[k].userId == low.members[k].userId;
    if i.Some? && j.Some? {
      assert i.value < j.value || j.value <= i.value;
    }
  }

  /** The org whose memberships a request is checked against, if it gets that far. */
  function OrgChecked(db: Tables, op: Op): Option<nat> {
    match op
    case Invite(orgId, _, _) => Some(orgId)
    case AddProject(orgId, _) => Some(orgId)
    case AddLabel(orgId, _, _) => Some(orgId)
    case AddTask(p, _) => if p < |db.projects| then Some(db.projects[p].orgId) else None
    case Register(_, _) => None
    case CreateOrg(_) => None
    case _ =>
      if op.taskId < |db.tasks| && db.tasks[op.taskId].projectId < |db.projects|
      then Some(db.projects[db.tasks[op.taskId].projectId].orgId)
      else None
  }

  /** The least role with which the endpoint lets a member through. */
  function MinimumRole(op: Op): OrgRole {
    match op
    case Invite(_, _, _) => Admin
    case AddProject(_, _) => Manager
    case Approve(_, _, _) => Manager
    case Reject(_, _, _) => Manager
    case _ => Member
  }

  /** The endpoint's minimum lies above the old role and within the new one. */
  predicate Crosses(from: OrgRole, to: OrgRole, op: Op) {
    from !in AtLeast(MinimumRole(op)) && to in AtLeast(MinimumRole(op))
  }

  /** The request is checked against row `m`, and passes with its role but would not with `from`. */
  predicate Opens(db: Tables, m: nat, from: OrgRole, req: Req) {
    && m < |db.members|
    && Identify(db, req.caller).None?
    && OrgChecked(db, req.op).Some?
    && FindMember(db.members, OrgChecked(db, req.op).value, req.caller) == Some(m)
    && Crosses(from, db.members[m].role, req.op)
  }

  /** Exactly the gates the raise opens: those that check the raised row against a minimum between
      the old role and the new.  They answered 403 before; every other gate answers as it did. */
  lemma RaisedGates(low: Tables, high: Tables, m: nat, req: Req)
    requires Raised(low, high, m)
    ensures Refusal(high, req) != Refusal(low, req) <==> Opens(high, m, low.members[m].role, req)
    ensures Opens(high, m, low.members[m].role, req) ==> Refusal(low, req) == Some(Forbidden)
  {
    var orgId := OrgChecked(low, req.op);
    if orgId.Some? {
      RaisedFinds(low, high, m, orgId.value, req.caller);
    }
    hide Refusal, Opens;
    if NamesTask(req.op) {
      RaisedTaskGates(low, high, m, req);
    } else {
      RaisedOtherGates(low, high, m, req);
    }
  }

  lemma RaisedTaskGates(low: Tables, high: Tables, m: nat, req: Req)
    requires Raised(low, high, m) && NamesTask(req.op)
    requires var o := OrgChecked(low, req.op);
             o.Some? ==> FindMember(high.members, o.value, req.caller) == FindMember(low.members, o.value, req.caller)
    ensures Refusal(high, req) != Refusal(low, req) <==> Opens(high, m, low.members[m].role, req)
    ensures Opens(high, m, low.members[m].role, req) ==> Refusal(low, req) == Some(Forbidden)
  {
    hide FindMember;
  }

  lemma RaisedOtherGates(low: Tables, high: Tables, m: nat, req: Req)
    requires Raised(low, high, m) && !NamesTask(req.op)
    requires var o := OrgChecked(low, req.op);
             o.Some? ==> FindMember(high.members, o.value, req.caller) == FindMember(low.members, o.value, req.caller)
    ensures Refusal(high, req) != Refusal(low, req) <==> Opens(high, m, low.members[m].role, req)
    ensures Opens(high, m, low.members[m].role, req) ==> Refusal(low, req) == Some(Forbidden)
  {
    hide FindMember;
  }

  lemma RaisedServes(low: Tables, high: Tables, m: nat, req: Req)
    requires Raised(low, high, m)
    requires NamesTask(req.op) ==> req.op.taskId < |low.tasks|
    ensures Serve(high, req).outcome == Serve(low, req).outcome
    ensures Raised(Serve(low, req).tables, Serve(high, req).tables, m)
  {
    match req.op
    case Invite(orgId, email, role) =>
      var user := FindUser(low.users, email);
      if user.Some? {
        RaisedFinds(low, high, m, orgId, user.value);
      }
    case _ =>
  }

  /** One request: if it is allowed before the raise it is allowed after it, with the same answer and
      the same effect on everything but that row. */
  lemma RaisedStep(low: Tables, high: Tables, m: nat, req: Req)
    requires Raised(low, high, m)
    ensures Refusal(low, req).None? ==> Handle(high, req).outcome == Handle(low, req).outcome
    ensures Accepts(low, req) || !Accepts(high, req) ==> Raised(Handle(low, req).tables, Handle(high, req).tables, m)
  {
    hide Refusal, Serve;
    RaisedGates(low, high, m, req);
    if Refusal(low, req).None? {
      GateNamesTask(low, req);
      RaisedServes(low, high, m, req);
    }
    RefusedChangesNothing(low, req);
    RefusedChangesNothing(high, req);
  }

  lemma GateNamesTask(db: Tables, req: Req)
    requires Refusal(db, req).None?
    ensures NamesTask(req.op) ==> req.op.taskId < |db.tasks|
  {
  }

  // ---------- Two runs of one list of requests ----------

  lemma RoleUnchanged(db: Tables, reqs: seq<Req>, m: nat)
    requires m < |db.members|
    ensures m < |RunFrom(db, reqs).members| && RunFrom(db, reqs).members[m] == db.members[m]
  {
    RunFromGrows(db, reqs);
  }

  lemma SameGateSameAnswer(low: Tables, high: Tables, m: nat, req: Req)
    requires Raised(low, high, m) && !Opens(high, m, low.members[m].role, req)
    ensures Handle(high, req).outcome == Handle(low, req).outcome
  {
    hide Refusal, Serve, Opens;
    RaisedGates(low, high, m, req);
    if Refusal(low, req).None? {
      GateNamesTask(low, req);
      RaisedServes(low, high, m, req);
    }
  }

  /** In the run with the raise, request `k` gets through for the raised role alone, and changes something. */
  ghost predicate Diverges(high: Tables, m: nat, from: OrgRole, reqs: seq<Req>, k: nat) {
    && k < |reqs|
    && Opens(RunFrom(high, reqs[..k]), m, from, reqs[k])
    && RunFrom(high, reqs[..k + 1]) != RunFrom(high, reqs[..k])
  }

  /** One request keeps the tables alike but for the row exactly when it does not diverge. */
  lemma RaisedStepExactly(low: Tables, high: Tables, m: nat, req: Req)
    requires Raised(low, high, m)
    ensures Raised(Handle(low, req).tables, Handle(high, req).tables, m)
            <==> !(Opens(high, m, low.members[m].role, req) && Handle(high, req).tables != high)
  {
    hide Refusal, Serve, Opens;
    RaisedGates(low, high, m, req);
    StepGrows(low, req);
    StepGrows(high, req);
    if Refusal(low, req).None? {
      GateNamesTask(low, req);
      RaisedServes(low, high, m, req);
    }
  }

  ghost predicate RaisedAt(low: Tables, high: Tables, m: nat, reqs: seq<Req>, k: nat) {
    k <= |reqs| && Raised(RunFrom(low, reqs[..k]), RunFrom(high, reqs[..k]), m)
  }

  /** Request `k`, if the first run allows it, is allowed in the second with the same answer. */
  ghost predicate AllowedAlike(low: Tables, high: Tables, reqs: seq<Req>, k: nat)
    requires k < |reqs|
  {
    var l, h := RunFrom(low, reqs[..k]), RunFrom(high, reqs[..k]);
    Accepts(l, reqs[k]) ==> Handle(h, reqs[k]).outcome == Handle(l, reqs[k]).outcome
  }

  lemma RaisedMoment(low: Tables, high: Tables, m: nat, reqs: seq<Req>, k: nat)
    requires Raised(low, high, m) && k < |reqs| && RaisedAt(low, high, m, reqs, k)
    ensures RaisedAt(low, high, m, reqs, k + 1) <==> !Diverges(high, m, low.members[m].role, reqs, k)
    ensures AllowedAlike(low, high, reqs, k)
  {
    hide Handle, Opens, Accepts;
    RoleUnchanged(low, reqs[..k], m);
    RunFromStep(low, reqs, k);
    RunFromStep(high, reqs, k);
    RaisedStepExactly(RunFrom(low, reqs[..k]), RunFrom(high, reqs[..k]), m, reqs[k]);
    AllowedStays(RunFrom(low, reqs[..k]), RunFrom(high, reqs[..k]), m, reqs[k]);
  }

  lemma AllowedStays(low: Tables, high: Tables, m: nat, req: Req)
    requires Raised(low, high, m)
    ensures Accepts(low, req) ==> Handle(high, req).outcome == Handle(low, req).outcome
  {
    hide Refusal, Serve;
    RaisedStep(low, high, m, req);
  }

  /** Two runs of one list of requests, the second with the role raised.  At every moment they differ
      in that row alone exactly when, in the second, no request that needs the raise changes anything;
      and then every request allowed in the first is allowed in the second, with the same answer. */
  lemma {:induction false} RaisedRunExactly(low: Tables, high: Tables, m: nat, reqs: seq<Req>)
    requires Raised(low, high, m)
    ensures (forall k: nat :: k <= |reqs| ==> RaisedAt(low, high, m, reqs, k))
            <==> (forall k: nat :: k < |reqs| ==> !Diverges(high, m, low.members[m].role, reqs, k))
    ensures (forall k: nat :: k <= |reqs| ==> RaisedAt(low, high, m, reqs, k)) ==>
              forall k: nat :: k < |reqs| ==> AllowedAlike(low, high, reqs, k)
  {
    var from := low.members[m].role;
    assert reqs[..0] == [];
    assert RaisedAt(low, high, m, reqs, 0);
    hide RaisedAt, Diverges, AllowedAlike;
    forall k: nat | k < |reqs| && RaisedAt(low, high, m, reqs, k)
      ensures RaisedAt(low, high, m, reqs, k + 1) <==> !Diverges(high, m, from, reqs, k)
      ensures AllowedAlike(low, high, reqs, k)
    {
      RaisedMoment(low, high, m, reqs, k);
    }
    var raised, diverges := (k: nat) => RaisedAt(low, high, m, reqs, k), (k: nat) => Diverges(high, m, from, reqs, k);
    HoldsThroughout(|reqs|, raised, diverges);
    assert forall k: nat :: raised(k) <==> RaisedAt(low, high, m, reqs, k);
    assert forall k: nat :: diverges(k) <==> Diverges(high, m, from, reqs, k);
  }

  /** In particular, whatever the requests do to the tables: if the raised user sends none whose minimum
      lies between the old role and the new, both runs give the same answers throughout. */
  lemma {:induction false} RaisedRun(low: Tables, high: Tables, m: nat, reqs: seq<Req>)
    requires Raised(low, high, m)
    requires forall k :: 0 <= k < |reqs| ==>
                           !(reqs[k].caller == low.members[m].userId
                             && Crosses(low.members[m].role, high.members[m].role, reqs[k].op))
    ensures Raised(RunFrom(low, reqs), RunFrom(high, reqs), m)
    ensures forall k :: 0 <= k < |reqs| ==>
              Handle(RunFrom(high, reqs[..k]), reqs[k]).outcome == Handle(RunFrom(low, reqs[..k]), reqs[k]).outcome
  {
    hide Handle;
    forall k: nat | k < |reqs|
      ensures !Opens(RunFrom(high, reqs[..k]), m, low.members[m].role, reqs[k])
    {
      RoleUnchanged(high, reqs[..k], m);
    }
    RaisedRunExactly(low, high, m, reqs);
    assert reqs[..|reqs|] == reqs;
    assert RaisedAt(low, high, m, reqs, |reqs|);
    forall k: nat | k < |reqs|
      ensures Handle(RunFrom(high, reqs[..k]), reqs[k]).outcome == Handle(RunFrom(low, reqs[..k]), reqs[k]).outcome
    {
      assert RaisedAt(low, high, m, reqs, k);
      RoleUnchanged(low, reqs[..k], m);
      SameGateSameAnswer(RunFrom(low, reqs[..k]), RunFrom(high, reqs[..k]), m, reqs[k]);
    }
  }

  // ---------- Why the condition is needed ----------

  const REGISTER_BOB := Req(0, Register("bob@example.com", "Bob"))

  function InviteBob(role: OrgRole): Req {
    Req(0, Invite(0, "bob@example.com", role))
  }

  /** Ann invites Bob with the given role and asks for her task to be approved. */
  function TeamSetup(role: OrgRole): seq<Req> {
    Setup(Todo) + ([REGISTER_BOB] + ([InviteBob(role)] + [ASK]))
  }

  function Joined(role: OrgRole): Tables {
    Workspace(Todo).(
      users := [User("ann@example.com", "Ann", true), User("bob@example.com", "Bob", true)],
      members := [OrgMember(0, 0, Owner), OrgMember(0, 1, role)])
  }

  function InReviewWith(role: OrgRole): Tables {
    Joined(role).(tasks := [ATask(InReview)], approvals := [NewRequest(0, 0)])
  }

  lemma BobJoins(role: OrgRole)
    ensures Handle(Handle(Workspace(Todo), REGISTER_BOB).tables, InviteBob(role)).tables == Joined(role)
  {
  }

  lemma AnnAsks(role: OrgRole)
    ensures Handle(Joined(role), ASK).tables == InReviewWith(role)
  {
  }

  lemma TeamSetupRuns(role: OrgRole)
    ensures Run(TeamSetup(role)) == InReviewWith(role)
  {
    hide Handle;
    var registered := Handle(Workspace(Todo), REGISTER_BOB).tables;
    SetupRuns(Todo);
    RunFromConcat(EMPTY_TABLES, Setup(Todo), [REGISTER_BOB] + ([InviteBob(role)] + [ASK]));
    RunFromCons(Workspace(Todo), REGISTER_BOB, [InviteBob(role)] + [ASK]);
    RunFromCons(registered, InviteBob(role), [ASK]);
    BobJoins(role);
    AnnAsks(role);
    assert [ASK][..0] == [];
  }

  /** The runs part once a request needs the raise and changes something: invited as a Manager, Bob takes
      the one pending approval that Ann's own request, allowed had he been a Member, no longer finds. */
  lemma UnlockingParts()
    ensures var low, high := Run(TeamSetup(Member)), Run(TeamSetup(Manager));
            var bob, ann := Req(1, Approve(0, None, 0)), Req(0, Approve(0, None, 1));
            && Raised(low, high, 1)
            && Diverges(high, 1, Member, [bob, ann], 0)
            && Accepts(RunFrom(low, [bob]), ann)
            && !Accepts(RunFrom(high, [bob]), ann)
  {
    TeamSetupRuns(Member);
    TeamSetupRuns(Manager);
    Parting(InReviewWith(Member), InReviewWith(Manager));
  }

  lemma Parting(low: Tables, high: Tables)
    requires low == InReviewWith(Member) && high == InReviewWith(Manager)
    ensures var bob, ann := Req(1, Approve(0, None, 0)), Req(0, Approve(0, None, 1));
            && Raised(low, high, 1)
            && Diverges(high, 1, Member, [bob, ann], 0)
            && Accepts(RunFrom(low, [bob]), ann)
            && !Accepts(RunFrom(high, [bob]), ann)
  {
    hide Handle, Accepts, Opens;
    var bob, ann := Req(1, Approve(0, None, 0)), Req(0, Approve(0, None, 1));
    assert [bob, ann][..1] == [bob] && [bob, ann][..0] == [] && [bob][..0] == [];
    BobRefused(low);
    BobApproves(high);
  }

  lemma BobRefused(low: Tables)
    requires low == InReviewWith(Member)
    ensures Handle(low, Req(1, Approve(0, None, 0))).tables == low
    ensures Accepts(low, Req(0, Approve(0, None, 1)))
  {
  }

  lemma BobApproves(high: Tables)
    requires high == InReviewWith(Manager)
    ensures var bob := Req(1, Approve(0, None, 0));
            var next := Handle(high, bob).tables;
            && Opens(high, 1, Member, bob)
            && next != high
            && !Accepts(next, Req(0, Approve(0, None, 1)))
  {
    var next := Handle(high, Req(1, Approve(0, None, 0))).tables;
    assert next.approvals == [Stamped(NewRequest(0, 0), Approved, 1, None, 0)];
    assert next.tasks[0].IsDone();
  }
}
