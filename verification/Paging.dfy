/** Newest-first pages read while rows arrive (list_tasks, list_projects). */
module Paging {
  import opened Models
  import opened Sorting
  import opened Api
  import opened Runs

  /** `at(r)` is the `created_at` of row `r`: the start of the transaction that inserted it, which need
      not agree with the order in which the rows were inserted. */
  function Newer(at: nat -> int): (nat, nat) -> bool {
    (a: nat, b: nat) => at(a) > at(b)
  }

  /** The rows of one parent, newest first: `parents[i]` is the foreign key of row `i`. */
  function NewestFirst(parents: seq<nat>, parent: nat, at: nat -> int): seq<nat> {
    if parents == [] then []
    else
      var n := |parents| - 1;
      var rest := NewestFirst(parents[..n], parent, at);
      if parents[n] == parent then Insert<nat>(n, rest, Newer(at)) else rest
  }

  function Least(a: nat, b: nat): nat {
    if a < b then a else b
  }

  /** ORDER BY created_at DESC LIMIT `limit` OFFSET `offset`. */
  function Page(ids: seq<nat>, limit: nat, offset: nat): seq<nat> {
    ids[Least(offset, |ids|)..Least(offset + limit, |ids|)]
  }

  function ProjectIds(tasks: seq<Task>): (parents: seq<nat>)
    ensures |parents| == |tasks|
    ensures forall i :: 0 <= i < |tasks| ==> parents[i] == tasks[i].projectId
  {
    seq(|tasks|, i requires 0 <= i < |tasks| => tasks[i].projectId)
  }

  function OrgIds(projects: seq<Project>): (parents: seq<nat>)
    ensures |parents| == |projects|
    ensures forall i :: 0 <= i < |projects| ==> parents[i] == projects[i].orgId
  {
    seq(|projects|, i requires 0 <= i < |projects| => projects[i].orgId)
  }

  /** The two paged listings: the tasks of a project, the projects of an org. */
  datatype Scope = TasksOf(projectId: nat) | ProjectsOf(orgId: nat)

  function Listing(db: Tables, scope: Scope, at: nat -> int): seq<nat> {
    match scope
    case TasksOf(projectId) => NewestFirst(ProjectIds(db.tasks), projectId, at)
    case ProjectsOf(orgId) => NewestFirst(OrgIds(db.projects), orgId, at)
  }

  /** `list_tasks` and `list_projects`: the ids of the rows on one page. */
  function ListPage(db: Tables, scope: Scope, at: nat -> int, limit: nat, offset: nat): seq<nat> {
    Page(Listing(db, scope, at), limit, offset)
  }

  lemma {:induction false} NewestFirstHolds(parents: seq<nat>, parent: nat, at: nat -> int)
    ensures forall r: nat :: r in NewestFirst(parents, parent, at) <==> r < |parents| && parents[r] == parent
  {
    if parents != [] {
      var n := |parents| - 1;
      NewestFirstHolds(parents[..n], parent, at);
      InsertHolds<nat>(n, NewestFirst(parents[..n], parent, at), Newer(at));
    }
  }

  lemma NewerIsTransitive(at: nat -> int)
    ensures Transitive<nat>(Newer(at))
  {
  }

  /** The listing holds exactly the parent's rows, each before all older ones. */
  lemma {:induction false} NewestFirstSorted(parents: seq<nat>, parent: nat, at: nat -> int)
    requires forall i: nat, j: nat :: i < j < |parents| && parents[i] == parents[j] == parent ==> at(i) != at(j)
    ensures var ids := NewestFirst(parents, parent, at);
            && (forall i, j :: 0 <= i < j < |ids| ==> at(ids[i]) > at(ids[j]))
            && (forall r: nat :: r in ids <==> r < |parents| && parents[r] == parent)
  {
    hide Insert, Transitive;
    NewestFirstHolds(parents, parent, at);
    if parents != [] {
      var n := |parents| - 1;
      var rest := NewestFirst(parents[..n], parent, at);
      NewestFirstSorted(parents[..n], parent, at);
      if parents[n] == parent {
        forall k | 0 <= k < |rest| ensures Newer(at)(n, rest[k]) || Newer(at)(rest[k], n) {
          assert rest[k] in rest;
          assert at(rest[k]) != at(n);
        }
        NewerIsTransitive(at);
        InsertOrdered<nat>(n, rest, Newer(at));
        assert forall i, j :: 0 <= i < j < |Insert<nat>(n, rest, Newer(at))| ==>
            Newer(at)(Insert<nat>(n, rest, Newer(at))[i], Insert<nat>(n, rest, Newer(at))[j]);
      }
    }
  }

  // ---------- What is on a page ----------

  /** The rows the endpoint lists: the tasks of the project, the projects of the org. */
  ghost function RowsOf(db: Tables, scope: Scope): set<nat> {
    match scope
    case TasksOf(projectId) => set r: nat | r < |db.tasks| && db.tasks[r].projectId == projectId
    case ProjectsOf(orgId) => set r: nat | r < |db.projects| && db.projects[r].orgId == orgId
  }

  ghost function NewerThan(db: Tables, scope: Scope, at: nat -> int, row: nat): set<nat> {
    set r | r in RowsOf(db, scope) && at(r) > at(row)
  }

  ghost predicate DistinctTimes(db: Tables, scope: Scope, at: nat -> int) {
    forall q, r :: q in RowsOf(db, scope) && r in RowsOf(db, scope) && q != r ==> at(q) != at(r)
  }

  /** A page holds exactly the listed rows of which at least `offset` and fewer than `offset + limit` others
      are newer, newest first. */
  lemma PageExactly(db: Tables, scope: Scope, at: nat -> int, limit: nat, offset: nat)
    requires DistinctTimes(db, scope, at)
    ensures var page := ListPage(db, scope, at, limit, offset);
            && (forall r: nat :: r in page
                  <==> r in RowsOf(db, scope) && offset <= |NewerThan(db, scope, at, r)| < offset + limit)
            && (forall i, j :: 0 <= i < j < |page| ==> at(page[i]) > at(page[j]))
  {
    var ids := Listing(db, scope, at);
    ListingHolds(db, scope, at);
    ListingSorted(db, scope, at);
    hide Listing, RowsOf, NewerThan;
    forall r: nat
      ensures r in Page(ids, limit, offset)
              <==> r in RowsOf(db, scope) && offset <= |NewerThan(db, scope, at, r)| < offset + limit
    {
      if r in ids {
        var k: nat :| k < |ids| && ids[k] == r;
        RankOf(db, scope, at, k);
        OnPageExactly(ids, limit, offset, k);
      }
    }
  }

  lemma ListingHolds(db: Tables, scope: Scope, at: nat -> int)
    ensures forall r: nat :: r in Listing(db, scope, at) <==> r in RowsOf(db, scope)
  {
    match scope
    case TasksOf(projectId) => NewestFirstHolds(ProjectIds(db.tasks), projectId, at);
    case ProjectsOf(orgId) => NewestFirstHolds(OrgIds(db.projects), orgId, at);
  }

  ghost predicate Descending(ids: seq<nat>, at: nat -> int) {
    forall i, j :: 0 <= i < j < |ids| ==> at(ids[i]) > at(ids[j])
  }

  lemma ListingSorted(db: Tables, scope: Scope, at: nat -> int)
    requires DistinctTimes(db, scope, at)
    ensures Descending(Listing(db, scope, at), at)
  {
    match scope
    case TasksOf(projectId) =>
      var parents := ProjectIds(db.tasks);
      assert forall i: nat :: i < |parents| && parents[i] == projectId ==> i in RowsOf(db, scope);
      NewestFirstSorted(parents, projectId, at);
    case ProjectsOf(orgId) =>
      var parents := OrgIds(db.projects);
      assert forall i: nat :: i < |parents| && parents[i] == orgId ==> i in RowsOf(db, scope);
      NewestFirstSorted(parents, orgId, at);
  }

  /** A row is on the page that covers its position, and on no other. */
  lemma OnPageExactly(ids: seq<nat>, limit: nat, offset: nat, k: nat)
    requires k < |ids| && forall i, j :: 0 <= i < j < |ids| ==> ids[i] != ids[j]
    ensures ids[k] in Page(ids, limit, offset) <==> offset <= k < offset + limit
  {
    if offset <= k < offset + limit {
      OnPage(ids, limit, offset, k);
    }
  }

  lemma RankOf(db: Tables, scope: Scope, at: nat -> int, k: nat)
    requires k < |Listing(db, scope, at)| && Descending(Listing(db, scope, at), at)
    ensures |NewerThan(db, scope, at, Listing(db, scope, at)[k])| == k
  {
    var ids := Listing(db, scope, at);
    ListingHolds(db, scope, at);
    hide Listing, RowsOf;
    RankIsIndex(ids, at, k);
    assert NewerThan(db, scope, at, ids[k]) == set q | q in ids && at(q) > at(ids[k]);
  }

  ghost function Elements(ids: seq<nat>): set<nat> {
    set q | q in ids
  }

  /** In a strictly descending listing a row has as many newer ones as its position says. */
  lemma RankIsIndex(ids: seq<nat>, at: nat -> int, k: nat)
    requires k < |ids| && Descending(ids, at)
    ensures |set q: nat | q in ids && at(q) > at(ids[k])| == k
  {
    var newer := set q: nat | q in ids && at(q) > at(ids[k]);
    forall q | q in newer ensures q in Elements(ids[..k]) {
      var i :| 0 <= i < |ids| && ids[i] == q;
      assert ids[..k][i] == q;
    }
    assert newer == Elements(ids[..k]);
    DistinctCount(ids[..k]);
  }

  lemma {:induction false} DistinctCount(ids: seq<nat>)
    requires forall i, j :: 0 <= i < j < |ids| ==> ids[i] != ids[j]
    ensures |Elements(ids)| == |ids|
  {
    if ids != [] {
      var n := |ids| - 1;
      var front := Elements(ids[..n]);
      DistinctCount(ids[..n]);
      assert ids == ids[..n] + [ids[n]];
      assert Elements(ids) == front + {ids[n]};
      assert ids[n] !in front;
    }
  }

  // ---------- Walking the pages ----------

  predicate LiesAt(ids: seq<nat>, j: nat, row: nat) {
    j < |ids| && ids[j] == row
  }

  /** Every row of the older listing is in the newer one, at the same position or further back. */
  ghost predicate MovesBack(older: seq<nat>, newer: seq<nat>) {
    forall i: nat, row: nat :: LiesAt(older, i, row) ==> exists j: nat :: i <= j && LiesAt(newer, j, row)
  }

  lemma MovesBackTransitive(a: seq<nat>, b: seq<nat>, c: seq<nat>)
    requires MovesBack(a, b) && MovesBack(b, c)
    ensures MovesBack(a, c)
  {
    forall i: nat, row: nat | LiesAt(a, i, row) ensures exists k: nat :: i <= k && LiesAt(c, k, row) {
      var j: nat :| i <= j && LiesAt(b, j, row);
      var k: nat :| j <= k && LiesAt(c, k, row);
    }
  }

  /** New rows come in anywhere: a listing moves back as its table grows. */
  lemma {:induction false} ListingMovesBack(older: seq<nat>, newer: seq<nat>, parent: nat, at: nat -> int)
    requires older <= newer
    ensures MovesBack(NewestFirst(older, parent, at), NewestFirst(newer, parent, at))
    decreases |newer|
  {
    if |older| < |newer| {
      var n := |newer| - 1;
      var rest, ids := NewestFirst(newer[..n], parent, at), NewestFirst(newer, parent, at);
      ListingMovesBack(older, newer[..n], parent, at);
      forall i: nat, row: nat | LiesAt(rest, i, row) ensures exists j: nat :: i <= j && LiesAt(ids, j, row) {
        InsertMovesBack<nat>(n, rest, Newer(at), i);
        assert LiesAt(ids, i, row) || LiesAt(ids, i + 1, row);
      }
      MovesBackTransitive(NewestFirst(older, parent, at), rest, ids);
    } else {
      assert older == newer;
    }
  }

  lemma OnPage(ids: seq<nat>, limit: nat, offset: nat, at: nat)
    requires offset <= at < offset + limit && at < |ids|
    ensures ids[at] in Page(ids, limit, offset)
  {
  }

  /** The offset of page `k`: each read moves on by one limit. */
  function Offset(limit: nat, k: nat): nat {
    if k == 0 then 0 else Offset(limit, k - 1) + limit
  }

  /** The row is on one of the pages at offsets 0, L, 2L, ..., page `k` being read from listing `k`. */
  ghost predicate OnSomePage(listings: seq<seq<nat>>, limit: nat, row: nat) {
    exists k :: 0 <= k < |listings| && row in Page(listings[k], limit, Offset(limit, k))
  }

  /** If listings only move back from one read to the next, a row of the first is on some page read so
      far, or still lies at or beyond the last offset reached. */
  lemma {:induction false} SeenOrAhead(listings: seq<seq<nat>>, limit: nat, i: nat)
    requires listings != [] && i < |listings[0]|
    requires forall k :: 0 < k < |listings| ==> MovesBack(listings[k - 1], listings[k])
    ensures var last := listings[|listings| - 1];
            || OnSomePage(listings, limit, listings[0][i])
            || exists j: nat :: Offset(limit, |listings|) <= j && LiesAt(last, j, listings[0][i])
    decreases |listings|
  {
    var n := |listings| - 1;
    var row, last := listings[0][i], listings[n];
    var j: nat := i;
    if n > 0 {
      var prev := listings[..n];
      SeenOrAhead(prev, limit, i);
      if OnSomePage(prev, limit, row) {
        var k :| 0 <= k < n && row in Page(prev[k], limit, Offset(limit, k));
        assert row in Page(listings[k], limit, Offset(limit, k));
        return;
      }
      var p: nat :| Offset(limit, n) <= p && LiesAt(prev[n - 1], p, row);
      assert MovesBack(listings[n - 1], listings[n]);
      j :| p <= j && LiesAt(last, j, row);
    }
    assert LiesAt(last, j, row) && Offset(limit, |listings|) == Offset(limit, n) + limit;
    if j < Offset(limit, n) + limit {
      OnPage(last, limit, Offset(limit, n), j);
    }
  }

  lemma ShortPageEnds(ids: seq<nat>, limit: nat, offset: nat)
    requires |Page(ids, limit, offset)| < limit
    ensures |ids| < offset + limit
  {
  }

  // ---------- Paging over a run ----------

  /** Pages are read at the moments `cuts[0] <= cuts[1] <= ...` of the run. */
  ghost predicate Moments(reqs: seq<Req>, cuts: seq<nat>) {
    && cuts != []
    && (forall k :: 0 <= k < |cuts| ==> cuts[k] <= |reqs|)
    && (forall k :: 0 < k < |cuts| ==> cuts[k - 1] <= cuts[k])
  }

  lemma TablesMoveBack(older: Tables, newer: Tables, scope: Scope, at: nat -> int)
    requires Grows(older, newer)
    ensures MovesBack(Listing(older, scope, at), Listing(newer, scope, at))
  {
    match scope
    case TasksOf(projectId) =>
      assert forall i :: 0 <= i < |older.tasks| ==> SameOrigin(older.tasks[i], newer.tasks[i]);
      assert ProjectIds(older.tasks) == ProjectIds(newer.tasks)[..|older.tasks|];
      ListingMovesBack(ProjectIds(older.tasks), ProjectIds(newer.tasks), projectId, at);
    case ProjectsOf(orgId) =>
      assert OrgIds(older.projects) == OrgIds(newer.projects)[..|older.projects|];
      ListingMovesBack(OrgIds(older.projects), OrgIds(newer.projects), orgId, at);
  }

  /** The answer to the `k`-th read of the walk. */
  ghost function PageRead(reqs: seq<Req>, cuts: seq<nat>, scope: Scope, at: nat -> int, limit: nat, k: nat): seq<nat>
    requires k < |cuts| && cuts[k] <= |reqs|
  {
    ListPage(Run(reqs[..cuts[k]]), scope, at, limit, Offset(limit, k))
  }

  /** Walking offsets 0, L, 2L, ... while any requests are served between the reads, whatever the
      creation times of the new rows: once a page comes back short, every row listed at the first
      read has been on some page. */
  lemma PagingNeverMisses(reqs: seq<Req>, cuts: seq<nat>, scope: Scope, at: nat -> int, limit: nat, row: nat)
    requires Moments(reqs, cuts)
    requires |PageRead(reqs, cuts, scope, at, limit, |cuts| - 1)| < limit
    requires row in RowsOf(Run(reqs[..cuts[0]]), scope)
    ensures exists k :: 0 <= k < |cuts| && row in PageRead(reqs, cuts, scope, at, limit, k)
  {
    hide Handle, Listing, Page, RowsOf, MovesBack;
    var ls := seq(|cuts|, k requires 0 <= k < |cuts| => Listing(Run(reqs[..cuts[k]]), scope, at));
    forall k | 0 < k < |ls| ensures MovesBack(ls[k - 1], ls[k]) {
      AppendOnly(reqs, cuts[k - 1], cuts[k]);
      TablesMoveBack(Run(reqs[..cuts[k - 1]]), Run(reqs[..cuts[k]]), scope, at);
    }
    ListingHolds(Run(reqs[..cuts[0]]), scope, at);
    ShortPageEnds(ls[|cuts| - 1], limit, Offset(limit, |cuts| - 1));
    assert Offset(limit, |ls|) == Offset(limit, |cuts| - 1) + limit;
    var i: nat :| i < |ls[0]| && ls[0][i] == row;
    SeenOrAhead(ls, limit, i);
    var k :| 0 <= k < |ls| && row in Page(ls[k], limit, Offset(limit, k));
    assert row in PageRead(reqs, cuts, scope, at, limit, k);
  }
}
