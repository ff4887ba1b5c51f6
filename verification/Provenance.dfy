/** Where memberships come from: every row traces back to the creator of its org. */
module Provenance {
  import opened Models
  import opened Rbac
  import opened Deps
  import opened Api
  import opened Runs
  import opened Invariants

  /** Request `i` of the run adds membership row `k`. */
  ghost predicate Adds(reqs: seq<Req>, i: nat, k: nat) {
    i < |reqs| && |Run(reqs[..i]).members| == k && k < |Run(reqs[..i + 1]).members|
  }

  /** Row `k` is the OWNER row of whoever created the org, added together with the org. */
  ghost predicate Founded(reqs: seq<Req>, k: nat) {
    var members := Run(reqs).members;
    && k < |members|
    && members[k].role == Owner
    && exists i: nat :: Adds(reqs, i, k) && reqs[i].op.CreateOrg? && reqs[i].caller == members[k].userId
                        && members[k].orgId == |Run(reqs[..i]).orgs|
  }

  /** Row `k` was added by an invitation from the holder of the earlier row `j`, an Admin or higher
      in the same org. */
  ghost predicate InvitedBy(reqs: seq<Req>, k: nat, j: nat) {
    var members := Run(reqs).members;
    && j < k < |members|
    && members[j].orgId == members[k].orgId
    && members[j].role in ADMINS
    && exists i: nat :: Adds(reqs, i, k) && reqs[i].op.Invite? && reqs[i].caller == members[j].userId
  }

  lemma {:induction false} RowHasAdder(reqs: seq<Req>, k: nat)
    requires k < |Run(reqs).members|
    ensures exists i: nat :: Adds(reqs, i, k)
  {
    hide Handle;
    var n := |reqs| - 1;
    assert reqs[..n + 1] == reqs;
    if k < |Run(reqs[..n]).members| {
      RowHasAdder(reqs[..n], k);
      var i: nat :| Adds(reqs[..n], i, k);
      assert reqs[..n][..i] == reqs[..i] && reqs[..n][..i + 1] == reqs[..i + 1];
      assert Adds(reqs, i, k);
    } else {
      StepAddsMember(Run(reqs[..n]), reqs[n]);
      assert Adds(reqs, n, k);
    }
  }

  /** A step adds at most one membership: a founder's, or one an Admin asked for. */
  lemma StepAddsMember(db: Tables, req: Req)
    ensures var next := Handle(db, req).tables;
            || next.members == db.members
            || (req.op.CreateOrg? && next.members == db.members + [OrgMember(|db.orgs|, req.caller, Owner)])
            || (&& req.op.Invite?
                && HasRole(db.members, req.op.orgId, req.caller, Admin)
                && |next.members| == |db.members| + 1
                && next.members[|db.members|].orgId == req.op.orgId)
  {
  }

  lemma Origin(reqs: seq<Req>, k: nat)
    requires k < |Run(reqs).members|
    ensures Founded(reqs, k) || exists j: nat :: InvitedBy(reqs, k, j)
  {
    hide Handle;
    RowHasAdder(reqs, k);
    var i: nat :| Adds(reqs, i, k);
    var db := Run(reqs[..i]);
    RunStep(reqs, i);
    StepAddsMember(db, reqs[i]);
    assert reqs[..|reqs|] == reqs;
    AppendOnly(reqs, i + 1, |reqs|);
    AppendOnly(reqs, i, |reqs|);
    var members := Run(reqs).members;
    assert members[k] == Run(reqs[..i + 1]).members[k];
    if reqs[i].op.Invite? {
      var j := FindMember(db.members, reqs[i].op.orgId, reqs[i].caller).value;
      assert members[j] == db.members[j];
      assert InvitedBy(reqs, k, j);
    } else {
      assert Founded(reqs, k);
    }
  }

  /** A strictly descending chain of inviters that ends at a founder. */
  ghost predicate IsChain(reqs: seq<Req>, chain: seq<nat>) {
    && chain != []
    && (forall m :: 0 <= m < |chain| - 1 ==> InvitedBy(reqs, chain[m], chain[m + 1]))
    && Founded(reqs, chain[|chain| - 1])
  }

  lemma ChainPrepend(reqs: seq<Req>, k: nat, rest: seq<nat>)
    requires IsChain(reqs, rest) && InvitedBy(reqs, k, rest[0])
    ensures IsChain(reqs, [k] + rest)
  {
    hide InvitedBy, Founded;
    var chain := [k] + rest;
    forall m | 0 <= m < |chain| - 1 ensures InvitedBy(reqs, chain[m], chain[m + 1]) {
      assert m > 0 ==> InvitedBy(reqs, rest[m - 1], rest[m]);
    }
  }

  /** Every membership row traces back through a finite chain of strictly earlier rows, each an
      Admin or higher of the same org who sent the next invitation, to the creator's OWNER row. */
  lemma {:induction false} Provenance(reqs: seq<Req>, k: nat)
    requires k < |Run(reqs).members|
    ensures exists chain: seq<nat> :: IsChain(reqs, chain) && chain[0] == k
    decreases k
  {
    hide Handle, Run, Founded;
    Origin(reqs, k);
    if Founded(reqs, k) {
      assert IsChain(reqs, [k]);
    } else {
      var j: nat :| InvitedBy(reqs, k, j);
      Provenance(reqs, j);
      var rest: seq<nat> :| IsChain(reqs, rest) && rest[0] == j;
      ChainPrepend(reqs, k, rest);
      assert ([k] + rest)[0] == k;
    }
  }

  lemma {:induction false} ChainStaysInOrg(reqs: seq<Req>, chain: seq<nat>)
    requires IsChain(reqs, chain)
    ensures chain[0] < |Run(reqs).members| && chain[|chain| - 1] < |Run(reqs).members|
    ensures Run(reqs).members[chain[0]].orgId == Run(reqs).members[chain[|chain| - 1]].orgId
    decreases |chain|
  {
    hide Handle;
    if |chain| > 1 {
      assert InvitedBy(reqs, chain[0], chain[1]);
      var rest := chain[1..];
      forall m | 0 <= m < |rest| - 1 ensures InvitedBy(reqs, rest[m], rest[m + 1]) {
        assert InvitedBy(reqs, chain[m + 1], chain[m + 2]);
      }
      ChainStaysInOrg(reqs, rest);
    }
  }

  /** Hence every org still has its creator as an owner. */
  lemma FounderStays(reqs: seq<Req>, orgId: nat)
    requires orgId < |Run(reqs).orgs|
    ensures exists k: nat :: Founded(reqs, k) && Run(reqs).members[k].orgId == orgId
  {
    hide Handle;
    RunInv(reqs);
    assert HasOwner(Run(reqs), orgId);
    var k: nat :| k < |Run(reqs).members| && Run(reqs).members[k].orgId == orgId;
    Provenance(reqs, k);
    var chain: seq<nat> :| IsChain(reqs, chain) && chain[0] == k;
    ChainStaysInOrg(reqs, chain);
    assert Founded(reqs, chain[|chain| - 1]);
  }
}
