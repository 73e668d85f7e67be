/**
 * Grants on objects and the rule that an object keeps an active administrator grant.
 *
 * The grant table is a map from grant ids; a revoked grant stays in it, inactive.
 */
module ObjectGrants {
  import opened Prelude

  type Id = nat

  datatype Role = Viewer | Editor | Admin

  datatype Principal = User(id: Id) | Group(id: Id)

  datatype Grant = Grant(target: Id, principal: Principal, role: Role, active: bool)

  type Grants = map<Id, Grant>

  datatype Error =
    | ResourceNotFound
    | RowNotFound
    | InvalidObjectGrantUserPrincipal
    | InvalidObjectGrantGroupPrincipal
    | ObjectMustRetainAdminGrant
    | Rejected

  predicate IsActiveOn(grants: Grants, o: Id, g: Id) {
    g in grants && grants[g].target == o && grants[g].active
  }

  function ActiveGrants(grants: Grants, o: Id): set<Id> {
    set g | g in grants && IsActiveOn(grants, o, g)
  }

  function AdminGrants(grants: Grants, o: Id): set<Id> {
    set g | g in grants && IsActiveOn(grants, o, g) && grants[g].role == Admin
  }

  /** Whether revoking `g`, or giving it the replacement role, keeps an administrator grant. */
  predicate RetainsAdmin(grants: Grants, o: Id, g: Id, replacement: Option<Role>)
    requires IsActiveOn(grants, o, g)
  {
    grants[g].role != Admin || replacement == Some(Admin) || |AdminGrants(grants, o)| > 1
  }

  function Revoked(grants: Grants, g: Id): Grants
    requires g in grants
  {
    grants[g := grants[g].(active := false)]
  }

  function Replaced(grants: Grants, g: Id, id: Id, role: Role): Grants
    requires g in grants
  {
    Revoked(grants, g)[id := Grant(grants[g].target, grants[g].principal, role, true)]
  }

  /** The unique index over active grants. */
  predicate OneActiveGrantPerPrincipal(grants: Grants) {
    forall g, h ::
      (g in grants && h in grants && grants[g].active && grants[h].active
       && grants[g].target == grants[h].target && grants[g].principal == grants[h].principal) ==> g == h
  }

  predicate HasActiveGrant(grants: Grants, o: Id, principal: Principal) {
    exists g :: g in grants && IsActiveOn(grants, o, g) && grants[g].principal == principal
  }

  /** Some administrator grant of the object is active. */
  ghost predicate HasActiveAdmin(grants: Grants, o: Id) {
    exists g :: g in grants && grants[g].target == o && grants[g].active && grants[g].role == Admin
  }

  /** The same without the grant `g`. */
  ghost predicate HasOtherActiveAdmin(grants: Grants, o: Id, g: Id) {
    exists h :: h != g && h in grants && grants[h].target == o && grants[h].active && grants[h].role == Admin
  }

  /** Taking the grant away, or giving it the new role, takes the object's last administrator. */
  ghost predicate TakesLastAdmin(grants: Grants, o: Id, g: Id, replacement: Option<Role>) {
    && g in grants && grants[g].role == Admin && replacement != Some(Admin)
    && !HasOtherActiveAdmin(grants, o, g)
  }

  // ---------------------------------------------------------------- what the rule is worth

  lemma OtherMember<T>(s: set<T>, x: T)
    requires |s| > 1
    ensures exists y :: y in s && y != x
  {
    var y :| y in s;
    if y == x {
      assert |s - {y}| > 0;
      var z :| z in s - {y};
    }
  }

  lemma AdminsAre(grants: Grants, o: Id)
    ensures AdminGrants(grants, o) != {} <==> HasActiveAdmin(grants, o)
  {
    if g :| g in grants && grants[g].target == o && grants[g].active && grants[g].role == Admin {
      assert g in AdminGrants(grants, o);
    }
    if AdminGrants(grants, o) != {} {
      var g :| g in AdminGrants(grants, o);
    }
  }

  /** More than one administrator is another one than this. */
  lemma OtherAdmins(grants: Grants, o: Id, g: Id)
    requires g in AdminGrants(grants, o)
    ensures |AdminGrants(grants, o)| > 1 <==> HasOtherActiveAdmin(grants, o, g)
  {
    var admins := AdminGrants(grants, o);
    if |admins| > 1 {
      OtherMember(admins, g);
      var h :| h in admins && h != g;
    }
    if h :| h != g && h in grants && grants[h].target == o && grants[h].active && grants[h].role == Admin {
      assert {g, h} <= admins && |{g, h}| == 2;
      assert admins == {g, h} + (admins - {g, h});
    }
  }

  lemma RetainsUnlessLast(grants: Grants, o: Id, g: Id, replacement: Option<Role>)
    requires IsActiveOn(grants, o, g)
    ensures RetainsAdmin(grants, o, g, replacement) <==> !TakesLastAdmin(grants, o, g, replacement)
  {
    if grants[g].role == Admin {
      OtherAdmins(grants, o, g);
    }
  }

  /** The guard is exact: it holds if and only if an administrator grant remains afterwards. */
  lemma RevokeGuardIsExact(grants: Grants, o: Id, g: Id)
    requires IsActiveOn(grants, o, g) && HasActiveAdmin(grants, o)
    ensures RetainsAdmin(grants, o, g, None) <==> HasActiveAdmin(grants[g := grants[g].(active := false)], o)
  {
    RetainsUnlessLast(grants, o, g, None);
    var after := grants[g := grants[g].(active := false)];
    if HasActiveAdmin(after, o) && grants[g].role == Admin {
      var h :| h in after && after[h].target == o && after[h].active && after[h].role == Admin;
      assert h != g && grants[h] == after[h];
    }
    if HasOtherActiveAdmin(grants, o, g) {
      var h :| h != g && h in grants && grants[h].target == o && grants[h].active && grants[h].role == Admin;
      assert after[h] == grants[h];
    }
    if grants[g].role != Admin {
      var h :| h in grants && grants[h].target == o && grants[h].active && grants[h].role == Admin;
      assert after[h] == grants[h];
    }
  }

  lemma ReplaceGuardIsExact(grants: Grants, o: Id, g: Id, id: Id, role: Role)
    requires IsActiveOn(grants, o, g) && id !in grants && HasActiveAdmin(grants, o)
    ensures var revoked := grants[g := grants[g].(active := false)];
            RetainsAdmin(grants, o, g, Some(role))
            <==> HasActiveAdmin(revoked[id := Grant(o, grants[g].principal, role, true)], o)
  {
    RevokeGuardIsExact(grants, o, g);
    RetainsUnlessLast(grants, o, g, Some(role));
    RetainsUnlessLast(grants, o, g, None);
    var revoked := grants[g := grants[g].(active := false)];
    var after := revoked[id := Grant(o, grants[g].principal, role, true)];
    if HasActiveAdmin(revoked, o) {
      var h :| h in revoked && revoked[h].target == o && revoked[h].active && revoked[h].role == Admin;
      assert after[h] == revoked[h];
    }
    if role == Admin {
      assert after[id].target == o && after[id].active && after[id].role == Admin;
    } else if HasActiveAdmin(after, o) {
      var h :| h in after && after[h].target == o && after[h].active && after[h].role == Admin;
      assert h != id && revoked[h] == after[h];
    }
  }

  /** Replacing swaps one active grant for one with the same principal. */
  lemma ReplaceKeepsCount(grants: Grants, o: Id, g: Id, id: Id, role: Role)
    requires IsActiveOn(grants, o, g) && id !in grants
    ensures ActiveGrants(Replaced(grants, g, id, role), o) == ActiveGrants(grants, o) - {g} + {id}
    ensures |ActiveGrants(Replaced(grants, g, id, role), o)| == |ActiveGrants(grants, o)|
    ensures Replaced(grants, g, id, role)[id].principal == grants[g].principal
    ensures OneActiveGrantPerPrincipal(grants) ==> OneActiveGrantPerPrincipal(Replaced(grants, g, id, role))
  {
    assert ActiveGrants(Replaced(grants, g, id, role), o) == ActiveGrants(grants, o) - {g} + {id};
    assert g in ActiveGrants(grants, o) && id !in ActiveGrants(grants, o);
  }

  // ---------------------------------------------------------------- one transition

  class GrantTable {
    var grants: Grants
    /** Active objects of active workspaces, as (workspace, object). */
    var activeObjects: set<(Id, Id)>
    /** Active members and groups, as (workspace, principal). */
    var activePrincipals: set<(Id, Principal)>

    ghost predicate Valid()
      reads this
    {
      OneActiveGrantPerPrincipal(grants)
    }

    /** Inserts a grant unless the unique index or the database for its own reasons refuses it. */
    method CreateUnchecked(o: Id, principal: Principal, role: Role, id: Id, refused: bool)
      returns (r: Result<Grant, Error>)
      requires Valid() && id !in grants
      modifies this`grants
      ensures Valid()
      ensures r.Ok? <==> !refused && forall g :: IsActiveOn(old(grants), o, g) ==> old(grants)[g].principal != principal
      ensures r.Ok? ==> r.value == Grant(o, principal, role, true) && grants == old(grants)[id := r.value]
      ensures r.Err? ==> r.error == Rejected && grants == old(grants)
    {
      if refused || HasActiveGrant(grants, o, principal) {
        return Err(Rejected);
      }
      var row := Grant(o, principal, role, true);
      assert forall g :: g in grants ==> (IsActiveOn(grants, o, g) ==> grants[g].principal != principal);
      grants := grants[id := row];
      r := Ok(row);
    }

    method CreateObjectGrant(workspace: Id, o: Id, principal: Principal, role: Role, id: Id, refused: bool)
      returns (r: Result<Grant, Error>)
      requires Valid() && id !in grants
      modifies this`grants
      ensures Valid()
      ensures r.Err? ==> grants == old(grants)
      ensures r.Ok? ==> r.value == Grant(o, principal, role, true) && grants == old(grants)[id := r.value]
      ensures r == Err(ResourceNotFound) <==> (workspace, o) !in activeObjects
      ensures r == Err(InvalidObjectGrantUserPrincipal) <==>
                (workspace, o) in activeObjects && (workspace, principal) !in activePrincipals && principal.User?
      ensures r == Err(InvalidObjectGrantGroupPrincipal) <==>
                (workspace, o) in activeObjects && (workspace, principal) !in activePrincipals && principal.Group?
      ensures r.Ok? <==> (workspace, o) in activeObjects && (workspace, principal) in activePrincipals
                         && !refused
                         && forall g :: IsActiveOn(old(grants), o, g) ==> old(grants)[g].principal != principal
    {
      if (workspace, o) !in activeObjects {
        return Err(ResourceNotFound);
      }
      if (workspace, principal) !in activePrincipals {
        return Err(if principal.User? then InvalidObjectGrantUserPrincipal else InvalidObjectGrantGroupPrincipal);
      }
      r := CreateUnchecked(o, principal, role, id, refused);
    }

    method LockActiveObjectGrant(o: Id, g: Id) returns (r: Result<Grant, Error>)
      ensures r == if g in grants && grants[g].target == o && grants[g].active then Ok(grants[g]) else Err(RowNotFound)
    {
      r := if IsActiveOn(grants, o, g) then Ok(grants[g]) else Err(RowNotFound);
    }

    method EnsureAdminGrantRetained(o: Id, current: Role, replacement: Option<Role>) returns (r: Result<(), Error>)
      ensures r == if current != Admin || replacement == Some(Admin) || |AdminGrants(grants, o)| > 1
                   then Ok(()) else Err(ObjectMustRetainAdminGrant)
    {
      if current != Admin || replacement == Some(Admin) {
        return Ok(());
      }
      if |AdminGrants(grants, o)| <= 1 {
        return Err(ObjectMustRetainAdminGrant);
      }
      r := Ok(());
    }

    method ReplaceInSavepoint(workspace: Id, o: Id, g: Id, role: Role, id: Id, refused: bool)
      returns (r: Result<(Grant, Grant), Error>)
      requires Valid() && id !in grants
      modifies this`grants
      ensures r == Err(RowNotFound) <==> !((workspace, o) in activeObjects && IsActiveOn(old(grants), o, g))
      ensures r == Err(ObjectMustRetainAdminGrant) <==>
                (workspace, o) in activeObjects && IsActiveOn(old(grants), o, g)
                && TakesLastAdmin(old(grants), o, g, Some(role))
      ensures r.Ok? <==> (workspace, o) in activeObjects && IsActiveOn(old(grants), o, g)
                         && !TakesLastAdmin(old(grants), o, g, Some(role)) && !refused
      ensures r.Ok? ==>
                && r.value == (old(grants)[g].(active := false), Grant(o, old(grants)[g].principal, role, true))
                && grants == old(grants)[g := r.value.0][id := r.value.1]
    {
      if (workspace, o) !in activeObjects {
        return Err(RowNotFound);
      }
      var previous := LockActiveObjectGrant(o, g);
      if previous.Err? {
        return Err(previous.error);
      }
      RetainsUnlessLast(grants, o, g, Some(role));
      var retained := EnsureAdminGrantRetained(o, previous.value.role, Some(role));
      if retained.Err? {
        return Err(retained.error);
      }
      grants := Revoked(grants, g);
      assert !HasActiveGrant(grants, o, previous.value.principal);
      var replacement := CreateUnchecked(o, previous.value.principal, role, id, refused);
      if replacement.Err? {
        return Err(replacement.error);
      }
      r := Ok((grants[g], replacement.value));
    }

    /** A failed replacement leaves every grant as it was, even when the insert fails last. */
    method ReplaceObjectGrant(workspace: Id, o: Id, g: Id, role: Role, id: Id, refused: bool)
      returns (r: Result<(Grant, Grant), Error>)
      requires Valid() && id !in grants
      modifies this`grants
      ensures Valid()
      ensures r == Err(RowNotFound) <==> !((workspace, o) in activeObjects && IsActiveOn(old(grants), o, g))
      ensures r == Err(ObjectMustRetainAdminGrant) <==>
                (workspace, o) in activeObjects && IsActiveOn(old(grants), o, g)
                && TakesLastAdmin(old(grants), o, g, Some(role))
      ensures r.Ok? <==> (workspace, o) in activeObjects && IsActiveOn(old(grants), o, g)
                         && !TakesLastAdmin(old(grants), o, g, Some(role)) && !refused
      ensures r.Ok? ==>
                && r.value == (old(grants)[g].(active := false), Grant(o, old(grants)[g].principal, role, true))
                && grants == old(grants)[g := r.value.0][id := r.value.1]
      ensures r.Err? ==> grants == old(grants)
    {
      var savepoint := grants;
      r := ReplaceInSavepoint(workspace, o, g, role, id, refused);
      if r.Err? {
        grants := savepoint;
      } else {
        ReplaceKeepsCount(savepoint, o, g, id, role);
      }
    }

    method RevokeObjectGrant(workspace: Id, o: Id, g: Id) returns (r: Result<Grant, Error>)
      requires Valid()
      modifies this`grants
      ensures Valid()
      ensures r == Err(RowNotFound) <==> !((workspace, o) in activeObjects && IsActiveOn(old(grants), o, g))
      ensures r == Err(ObjectMustRetainAdminGrant) <==>
                (workspace, o) in activeObjects && IsActiveOn(old(grants), o, g)
                && TakesLastAdmin(old(grants), o, g, None)
      ensures r.Ok? <==> (workspace, o) in activeObjects && IsActiveOn(old(grants), o, g)
                         && !TakesLastAdmin(old(grants), o, g, None)
      ensures r.Ok? ==> r.value == old(grants)[g].(active := false) && grants == old(grants)[g := r.value]
      ensures r.Err? ==> grants == old(grants)
    {
      if (workspace, o) !in activeObjects {
        return Err(RowNotFound);
      }
      var grant := LockActiveObjectGrant(o, g);
      if grant.Err? {
        return Err(grant.error);
      }
      RetainsUnlessLast(grants, o, g, None);
      var retained := EnsureAdminGrantRetained(o, grant.value.role, None);
      if retained.Err? {
        return Err(retained.error);
      }
      grants := Revoked(grants, g);
      r := Ok(grants[g]);
    }
  }
}
