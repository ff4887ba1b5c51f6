/** The join table of labels refines a set of pairs, and labels list by name without ties. */
module Labels {
  import opened Models
  import opened LabelService
  import opened Sorting
  import opened Api
  import opened Invariants

  /** What an accepted attach or detach call on the pair does to it. */
  function CallOn(db: Tables, req: Req, pair: TaskLabel): Option<bool> {
    if !Accepts(db, req) then None
    else if req.op == Attach(pair.taskId, pair.labelId) then Some(true)
    else if req.op == Detach(pair.taskId, pair.labelId) then Some(false)
    else None
  }

  /** Whether the last accepted call on the pair attached it. */
  predicate LastAttached(reqs: seq<Req>, pair: TaskLabel) {
    reqs != [] &&
    var n := |reqs| - 1;
    var call := CallOn(Run(reqs[..n]), reqs[n], pair);
    if call.Some? then call.value else LastAttached(reqs[..n], pair)
  }

  lemma WithoutRowCounts(rows: seq<TaskLabel>, i: nat)
    requires i < |rows|
    ensures multiset(WithoutRow(rows, i)) == multiset(rows) - multiset{rows[i]}
  {
    assert rows == rows[..i] + [rows[i]] + rows[i + 1..];
  }

  lemma AttachOnPair(db: Tables, t: nat, l: nat, pair: TaskLabel)
    requires multiset(db.taskLabels)[pair] <= 1
    ensures multiset(AttachLabel(db, t, l).tables.taskLabels)[pair]
            == if pair == TaskLabel(t, l) then 1 else multiset(db.taskLabels)[pair]
  {
  }

  lemma DetachOnPair(db: Tables, t: nat, l: nat, pair: TaskLabel)
    requires multiset(db.taskLabels)[pair] <= 1
    ensures multiset(DetachLabel(db, t, l).tables.taskLabels)[pair]
            == if pair == TaskLabel(t, l) then 0 else multiset(db.taskLabels)[pair]
  {
    var existing := FindTaskLabel(db.taskLabels, t, l);
    if existing.Some? {
      WithoutRowCounts(db.taskLabels, existing.value);
    }
  }

  lemma OtherStepsKeepPairs(db: Tables, req: Req)
    requires !(Accepts(db, req) && (req.op.Attach? || req.op.Detach?))
    ensures Handle(db, req).tables.taskLabels == db.taskLabels
  {
  }

  lemma StepOnPair(db: Tables, req: Req, pair: TaskLabel)
    requires multiset(db.taskLabels)[pair] <= 1
    ensures var call := CallOn(db, req, pair);
            multiset(Handle(db, req).tables.taskLabels)[pair]
            == if call.None? then multiset(db.taskLabels)[pair] else if call.value then 1 else 0
  {
    hide AttachLabel, DetachLabel;
    if Accepts(db, req) && req.op.Attach? {
      AttachOnPair(db, req.op.taskId, req.op.labelId, pair);
    } else if Accepts(db, req) && req.op.Detach? {
      DetachOnPair(db, req.op.taskId, req.op.labelId, pair);
    } else {
      OtherStepsKeepPairs(db, req);
    }
  }

  /** In every reachable state the pair has one row if the last accepted call on it was an attach,
      and none otherwise. */
  lemma {:induction false} RowsRefineSet(reqs: seq<Req>, pair: TaskLabel)
    ensures multiset(Run(reqs).taskLabels)[pair] == if LastAttached(reqs, pair) then 1 else 0
  {
    hide Handle;
    if reqs != [] {
      var n := |reqs| - 1;
      RowsRefineSet(reqs[..n], pair);
      StepOnPair(Run(reqs[..n]), reqs[n], pair);
    }
  }

  // ---------- Listing by name ----------

  /** A strict total order on names: the database collation, whichever it is. */
  ghost predicate Collation(lt: (string, string) -> bool) {
    && (forall a :: !lt(a, a))
    && (forall a, b :: a == b || lt(a, b) || lt(b, a))
    && (forall a, b, c :: lt(a, b) && lt(b, c) ==> lt(a, c))
  }

  function ByName(lt: (string, string) -> bool): (Label, Label) -> bool {
    (a: Label, b: Label) => lt(a.name, b.name)
  }

  /** The labels of an org, ordered by name. */
  function ListLabels(labels: seq<Label>, orgId: nat, lt: (string, string) -> bool): seq<Label> {
    if labels == [] then []
    else
      var n := |labels| - 1;
      var rest := ListLabels(labels[..n], orgId, lt);
      if labels[n].orgId == orgId then Insert(labels[n], rest, ByName(lt)) else rest
  }

  ghost predicate Ascending(labels: seq<Label>, lt: (string, string) -> bool) {
    forall i, j :: 0 <= i < j < |labels| ==> lt(labels[i].name, labels[j].name)
  }

  lemma NameOrderIsTransitive(lt: (string, string) -> bool)
    requires Collation(lt)
    ensures Transitive(ByName(lt))
  {
    var before := ByName(lt);
    forall a: Label, b: Label, c: Label | before(a, b) && before(b, c) ensures before(a, c) {
      assert lt(a.name, b.name) && lt(b.name, c.name);
    }
  }

  lemma {:induction false} ListAscending(labels: seq<Label>, orgId: nat, lt: (string, string) -> bool)
    requires Collation(lt)
    requires forall i, j :: 0 <= i < j < |labels| ==>
                              !(labels[i].orgId == labels[j].orgId && labels[i].name == labels[j].name)
    ensures var listed := ListLabels(labels, orgId, lt);
            && Ascending(listed, lt)
            && (forall l :: l in listed <==> l in labels && l.orgId == orgId)
  {
    if labels != [] {
      var n := |labels| - 1;
      ListAscending(labels[..n], orgId, lt);
      var rest := ListLabels(labels[..n], orgId, lt);
      assert labels == labels[..n] + [labels[n]];
      if labels[n].orgId == orgId {
        forall k | 0 <= k < |rest| ensures lt(labels[n].name, rest[k].name) || lt(rest[k].name, labels[n].name) {
          assert rest[k] in labels[..n];
        }
        NameOrderIsTransitive(lt);
        InsertOrdered(labels[n], rest, ByName(lt));
        InsertHolds(labels[n], rest, ByName(lt));
      }
    }
  }

  /** In every reachable state, listing an org's labels by name gives exactly its labels in strictly
      ascending order, under any collation: no two share a name. */
  lemma LabelsListStrictly(reqs: seq<Req>, orgId: nat, lt: (string, string) -> bool)
    requires Collation(lt)
    ensures var listed := ListLabels(Run(reqs).labels, orgId, lt);
            && Ascending(listed, lt)
            && (forall l :: l in listed <==> l in Run(reqs).labels && l.orgId == orgId)
  {
    hide Handle;
    RunInv(reqs);
    ListAscending(Run(reqs).labels, orgId, lt);
  }
}
