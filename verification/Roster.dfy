/**
 * The last-owner rule shared by both identity stores: `orphans_owner` over the
 * `(user, role)` pairs of one organization.
 */
module Roster {
  import opened Wrappers

  datatype Role = Owner | Admin | Member | Viewer

  datatype Entry = Entry(user: nat, role: Role)

  predicate AnyOwner(roles: seq<Entry>)
  {
    exists e | e in roles :: e.role == Owner
  }

  predicate OthersOwn(roles: seq<Entry>, user: nat)
  {
    exists e | e in roles :: e.user != user && e.role == Owner
  }

  /** `newRole` is `None` for a removal. */
  predicate OrphansOwner(roles: seq<Entry>, user: nat, newRole: Option<Role>)
  {
    if !AnyOwner(roles) then false
    else if OthersOwn(roles, user) then false
    else newRole != Some(Owner)
  }

  /** The roster once the change has been applied: a removal drops the user's entries. */
  function Changed(roles: seq<Entry>, user: nat, newRole: Option<Role>): seq<Entry>
  {
    if roles == [] then []
    else
      var rest := Changed(roles[1..], user, newRole);
      if roles[0].user != user then [roles[0]] + rest
      else if newRole.Some? then [Entry(user, newRole.value)] + rest
      else rest
  }

  lemma {:induction false} ChangedEntries(roles: seq<Entry>, user: nat, newRole: Option<Role>, e: Entry)
    ensures e in Changed(roles, user, newRole)
      <==> if e.user != user then e in roles
           else newRole == Some(e.role) && exists f | f in roles :: f.user == user
  {
    if roles != [] {
      ChangedEntries(roles[1..], user, newRole, e);
      assert roles == [roles[0]] + roles[1..];
    }
  }

  /** True exactly when the change takes the organization from some owner to none. */
  lemma OrphansOwnerExact(roles: seq<Entry>, user: nat, newRole: Option<Role>)
    ensures OrphansOwner(roles, user, newRole)
      <==> AnyOwner(roles) && !AnyOwner(Changed(roles, user, newRole))
  {
    var after := Changed(roles, user, newRole);
    forall e: Entry
      ensures e in after <==> if e.user != user then e in roles
           else newRole == Some(e.role) && exists f | f in roles :: f.user == user
    {
      ChangedEntries(roles, user, newRole, e);
    }
    if AnyOwner(roles) && !OthersOwn(roles, user) {
      var e :| e in roles && e.role == Owner;
      assert newRole == Some(Owner) ==> Entry(user, Owner) in after;
    }
  }
}
