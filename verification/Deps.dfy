/** Who is calling, and the three role gates (app/api/deps.py).  A gate answers `None` to let the
    request through and the error to refuse it. */
module Deps {
  import opened Models
  import opened Rbac

  function Identify(db: Tables, caller: nat): Option<Error> {
    if caller < |db.users| && db.users[caller].active then None else Some(Unauthorized)
  }

  function FindMember(members: seq<OrgMember>, orgId: nat, userId: nat): (r: Option<nat>)
    ensures r.Some? ==>
              && r.value < |members|
              && members[r.value].orgId == orgId && members[r.value].userId == userId
              && forall j :: 0 <= j < r.value ==> !(members[j].orgId == orgId && members[j].userId == userId)
    ensures r.None? ==>
              forall j :: 0 <= j < |members| ==> !(members[j].orgId == orgId && members[j].userId == userId)
  {
    FindFirst(members, (m: OrgMember) => m.orgId == orgId && m.userId == userId)
  }

  predicate HasRole(members: seq<OrgMember>, orgId: nat, userId: nat, minimum: OrgRole) {
    var m := FindMember(members, orgId, userId);
    m.Some? && RoleSatisfies(members[m.value].role, minimum)
  }

  function OrgGate(db: Tables, orgId: nat, caller: nat, minimum: OrgRole): Option<Error> {
    var known := Identify(db, caller);
    if known.Some? then known
    else
      var membership := FindMember(db.members, orgId, caller);
      if membership.None? then Some(Forbidden)
      else if !RoleSatisfies(db.members[membership.value].role, minimum) then Some(Forbidden)
      else None
  }

  function ProjectGate(db: Tables, projectId: nat, caller: nat, minimum: OrgRole): Option<Error> {
    if projectId >= |db.projects| then Some(NotFound)
    else
      var known := Identify(db, caller);
      if known.Some? then known
      else if !HasRole(db.members, db.projects[projectId].orgId, caller, minimum) then Some(Forbidden)
      else None
  }

  function TaskGate(db: Tables, taskId: nat, caller: nat, minimum: OrgRole): Option<Error> {
    if taskId >= |db.tasks| then Some(NotFound)
    else
      var known := Identify(db, caller);
      var projectId := db.tasks[taskId].projectId;
      if known.Some? then known
      else if projectId >= |db.projects| then Some(NotFound)
      else if !HasRole(db.members, db.projects[projectId].orgId, caller, minimum) then Some(Forbidden)
      else None
  }
}
