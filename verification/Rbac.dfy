/** The role hierarchy (app/core/rbac.py). */
module Rbac {
  import opened Models

  function RoleRank(role: OrgRole): nat {
    match role
    case Member => 1
    case Manager => 2
    case Admin => 3
    case Owner => 4
  }

  predicate RoleSatisfies(actual: OrgRole, minimum: OrgRole) {
    RoleRank(actual) >= RoleRank(minimum)
  }

  // ---------- The roles that hold a permission ----------

  const EVERYONE := {Member, Manager, Admin, Owner}
  const MANAGERS := {Manager, Admin, Owner}
  const ADMINS := {Admin, Owner}

  function AtLeast(minimum: OrgRole): set<OrgRole> {
    match minimum
    case Member => EVERYONE
    case Manager => MANAGERS
    case Admin => ADMINS
    case Owner => {Owner}
  }

  /** Each role has the permissions of those below it: owner over admin over manager over member. */
  lemma RolesAbove(actual: OrgRole, minimum: OrgRole)
    ensures RoleSatisfies(actual, minimum) <==> actual in AtLeast(minimum)
  {
  }
}
