/** The algebra of PATCH: a sequence of accepted patches is one accepted patch. */
module Patches {
  import opened Models
  import opened Deps
  import opened TaskService
  import opened Api
  import opened Invariants

  /** Later keys win, as when one dict is updated with the next. */
  function Merge(first: Updates, second: Updates): Updates {
    first + second
  }

  /** After a patch a column reads the value the patch carries for it, and otherwise what it read
      before; the task keeps its project and reporter. */
  lemma PatchReads(task: Task, updates: Updates, f: Field)
    ensures GetAttr(Override(task, updates), f) == if f in updates then updates[f] else GetAttr(task, f)
    ensures Override(task, updates).projectId == task.projectId
    ensures Override(task, updates).reporterId == task.reporterId
  {
  }

  lemma OverrideMerge(task: Task, first: Updates, second: Updates)
    ensures Override(Override(task, first), second) == Override(task, Merge(first, second))
  {
  }

  /** The patches guarded against Done are closed under merging. */
  lemma GuardMerge(first: Updates, second: Updates)
    requires !DirectDoneTransition(first) && !DirectDoneTransition(second)
    ensures !DirectDoneTransition(Merge(first, second))
  {
  }

  /** An accepted patch writes the patched row, and nothing else. */
  lemma PatchServed(db: Tables, caller: nat, t: nat, updates: Updates)
    ensures Accepts(db, Req(caller, Patch(t, updates)))
            <==> TaskGate(db, t, caller, Member).None? && !DirectDoneTransition(updates)
                 && Storable(db, Override(db.tasks[t], updates))
    ensures Accepts(db, Req(caller, Patch(t, updates))) ==>
              t < |db.tasks|
              && Handle(db, Req(caller, Patch(t, updates)))
              == Response(db.(tasks := db.tasks[t := Override(db.tasks[t], updates)]), Ok(t))
  {
  }

  /** All patches of a list, the later over the earlier. */
  function MergeAll(patches: seq<Req>): Updates
    requires forall k :: 0 <= k < |patches| ==> patches[k].op.Patch?
  {
    if patches == [] then map[]
    else
      var n := |patches| - 1;
      Merge(MergeAll(patches[..n]), patches[n].op.updates)
  }

  /** One more patch on top of an accepted one. */
  lemma PatchOnPatch(db: Tables, caller: nat, t: nat, first: Updates, mid: Tables, last: Req)
    requires Handle(db, Req(caller, Patch(t, first))) == Response(mid, Ok(t))
    requires last.op.Patch? && last.op.taskId == t && Accepts(mid, last)
    ensures Handle(db, Req(caller, Patch(t, Merge(first, last.op.updates))))
            == Response(Handle(mid, last).tables, Ok(t))
  {
    hide Handle, Override, TaskGate, Storable;
    var second := last.op.updates;
    PatchServed(db, caller, t, first);
    PatchServed(mid, last.caller, t, second);
    PatchServed(db, caller, t, Merge(first, second));
    OverrideMerge(db.tasks[t], first, second);
    GuardMerge(first, second);
    StorableAlike(db, mid, Override(mid.tasks[t], second));
  }

  lemma StorableAlike(db: Tables, next: Tables, task: Task)
    requires next.users == db.users
    ensures Storable(next, task) <==> Storable(db, task)
  {
  }

  lemma NothingPatched(db: Tables, caller: nat, t: nat)
    requires Referential(db) && TaskGate(db, t, caller, Member).None?
    ensures Handle(db, Req(caller, Patch(t, map[]))) == Response(db, Ok(t))
  {
    PatchServed(db, caller, t, map[]);
    assert db.tasks[t := Override(db.tasks[t], map[])] == db.tasks;
  }

  /** Any sequence of accepted patches to a task, by whatever members, has the effect of one patch
      carrying their merged keys, which anyone who may patch the task could have sent. */
  lemma {:induction false} PatchesAreOnePatch(db: Tables, patches: seq<Req>, t: nat, caller: nat)
    requires Referential(db) && TaskGate(db, t, caller, Member).None?
    requires forall k :: 0 <= k < |patches| ==>
                           && patches[k].op.Patch? && patches[k].op.taskId == t
                           && Accepts(RunFrom(db, patches[..k]), patches[k])
    ensures Handle(db, Req(caller, Patch(t, MergeAll(patches)))) == Response(RunFrom(db, patches), Ok(t))
  {
    hide Handle, Accepts, TaskGate;
    if patches != [] {
      var n := |patches| - 1;
      var prev, last := patches[..n], patches[n];
      forall k | 0 <= k < n ensures Accepts(RunFrom(db, prev[..k]), prev[k]) {
        assert prev[..k] == patches[..k];
      }
      PatchesAreOnePatch(db, prev, t, caller);
      PatchOnPatch(db, caller, t, MergeAll(prev), RunFrom(db, prev), last);
    } else {
      NothingPatched(db, caller, t);
    }
  }

  /** Hence no sequence of patches takes a task into Done. */
  lemma PatchesNeverFinish(db: Tables, patches: seq<Req>, t: nat, caller: nat)
    requires Referential(db) && TaskGate(db, t, caller, Member).None?
    requires forall k :: 0 <= k < |patches| ==>
                           && patches[k].op.Patch? && patches[k].op.taskId == t
                           && Accepts(RunFrom(db, patches[..k]), patches[k])
    ensures t < |RunFrom(db, patches).tasks|
    ensures RunFrom(db, patches).tasks[t].IsDone() ==> db.tasks[t].IsDone()
  {
    PatchesAreOnePatch(db, patches, t, caller);
    PatchServed(db, caller, t, MergeAll(patches));
  }
}
