/** The in-memory identity store: seven dictionaries updated in place. */
module IdentityStore {
  import opened Wrappers
  import opened Roster
  import opened Identity

  class InMemoryIdentityStore {
    var users: map<nat, User>
    var usersByEmail: map<string, nat>
    var orgs: map<nat, Org>
    var memberships: map<MemberKey, Membership>
    var teams: map<nat, Team>
    var teamsByName: map<NameKey, nat>
    var teamMembers: map<TeamKey, TeamMembership>

    function Contents(): Store
      reads this
    {
      Store(users, usersByEmail, orgs, memberships, teams, teamsByName, teamMembers)
    }

    ghost predicate Valid()
      reads this
    {
      Inv(Contents())
    }

    constructor ()
      ensures Valid() && Contents() == EMPTY
    {
      users, usersByEmail, orgs := map[], map[], map[];
      memberships, teams, teamsByName, teamMembers := map[], map[], map[], map[];
    }

    method CreateUser(id: nat, email: string, hash: string, now: int) returns (r: Result<User, Error>)
      requires Valid() && id !in users
      modifies this
      ensures Valid()
      ensures (Contents(), r) == Identity.CreateUser(old(Contents()), id, email, hash, now)
    {
      hide Inv;
      CreateUserKeepsInv(Contents(), id, email, hash, now);
      if email in usersByEmail {
        return Err(EmailExists);
      }
      var user := User(id, email, hash, now);
      users := users[user.id := user];
      usersByEmail := usersByEmail[email := user.id];
      return Ok(user);
    }

    /** The user registered under `email`, if and only if there is one. */
    method GetUserByEmail(email: string) returns (r: Option<User>)
      requires Valid()
      ensures r.Some? ==> r.value.id in users && users[r.value.id] == r.value && r.value.email == email
      ensures r.None? ==> forall id | id in users :: users[id].email != email
    {
      if email !in usersByEmail {
        return None;
      }
      var id := usersByEmail[email];
      return if id in users then Some(users[id]) else None;
    }

    method CreateOrganization(id: nat, name: string, now: int) returns (r: Org)
      requires Valid() && id !in orgs
      modifies this
      ensures Valid()
      ensures (Contents(), r) == Identity.CreateOrganization(old(Contents()), id, name, now)
    {
      r := Org(id, name, now);
      orgs := orgs[id := r];
    }

    method AddMembership(user: nat, org: nat, role: Role, now: int) returns (r: Result<Membership, Error>)
      requires Valid()
      modifies this
      ensures Valid()
      ensures (Contents(), r) == Identity.AddMembership(old(Contents()), user, org, role, now)
    {
      hide Inv;
      AddMembershipKeepsInv(Contents(), user, org, role, now);
      var key := MemberKey(user, org);
      if key in memberships {
        return Err(MembershipExists);
      }
      var membership := Membership(user, org, role, now);
      memberships := memberships[key := membership];
      return Ok(membership);
    }

    /** The `(user, role)` pairs of the organization, in any order. */
    method OrgRoles(org: nat) returns (roles: seq<Entry>)
      requires Valid()
      ensures forall e ::
        e in roles <==> MemberKey(e.user, org) in memberships && memberships[MemberKey(e.user, org)].role == e.role
    {
      roles := [];
      var rest := memberships.Keys;
      while rest != {}
        invariant rest <= memberships.Keys
        invariant forall e :: e in roles <==>
          (MemberKey(e.user, org) in memberships.Keys - rest && memberships[MemberKey(e.user, org)].role == e.role)
        decreases rest
      {
        var k :| k in rest;
        rest := rest - {k};
        var m := memberships[k];
        if m.org == org {
          roles := roles + [Entry(m.user, m.role)];
        }
      }
    }

    method UpdateMembershipRole(user: nat, org: nat, role: Role) returns (r: Result<Option<Membership>, Error>)
      requires Valid()
      modifies this
      ensures Valid()
      ensures (Contents(), r) == UpdateRole(old(Contents()), user, org, role)
    {
      UpdateRoleKeepsInv(Contents(), user, org, role);
      var key := MemberKey(user, org);
      if key !in memberships {
        return Ok(None);
      }
      var roles := OrgRoles(org);
      RolesDecide(Contents(), org, roles, user, Some(role));
      if OrphansOwner(roles, user, Some(role)) {
        return Err(LastOwner);
      }
      var updated := Membership(user, org, role, memberships[key].createdAt);
      memberships := memberships[key := updated];
      return Ok(Some(updated));
    }

    method RemoveMembership(user: nat, org: nat) returns (r: Result<bool, Error>)
      requires Valid()
      modifies this
      ensures Valid()
      ensures (Contents(), r) == Identity.RemoveMembership(old(Contents()), user, org)
    {
      RemoveMembershipKeepsInv(Contents(), user, org);
      var key := MemberKey(user, org);
      if key !in memberships {
        return Ok(false);
      }
      var roles := OrgRoles(org);
      RolesDecide(Contents(), org, roles, user, None);
      if OrphansOwner(roles, user, None) {
        return Err(LastOwner);
      }
      var doomed := TeamKeysOf(Contents(), user, org);
      memberships := memberships - {key};
      DropTeamMembers(doomed);
      return Ok(true);
    }

    method CreateTeam(id: nat, org: nat, name: string, now: int) returns (r: Result<Team, Error>)
      requires Valid() && id !in teams
      modifies this
      ensures Valid()
      ensures (Contents(), r) == Identity.CreateTeam(old(Contents()), id, org, name, now)
    {
      hide Inv;
      CreateTeamKeepsInv(Contents(), id, org, name, now);
      if NameKey(org, name) in teamsByName {
        return Err(TeamExists);
      }
      var team := Team(id, org, name, now);
      teams := teams[team.id := team];
      teamsByName := teamsByName[NameKey(org, name) := team.id];
      return Ok(team);
    }

    method AddTeamMember(team: nat, user: nat, now: int) returns (r: Result<TeamMembership, Error>)
      requires Valid()
      modifies this
      ensures Valid()
      ensures (Contents(), r) == Identity.AddTeamMember(old(Contents()), team, user, now)
    {
      hide Inv;
      AddTeamMemberKeepsInv(Contents(), team, user, now);
      if team !in teams {
        return Err(TeamNotFound);
      }
      if MemberKey(user, teams[team].org) !in memberships {
        return Err(OrgMismatch);
      }
      if TeamKey(team, user) in teamMembers {
        return Ok(teamMembers[TeamKey(team, user)]);
      }
      var membership := TeamMembership(team, user, now);
      teamMembers := teamMembers[TeamKey(team, user) := membership];
      return Ok(membership);
    }

    method DeleteTeam(org: nat, team: nat) returns (deleted: bool)
      requires Valid()
      modifies this
      ensures Valid()
      ensures (Contents(), deleted) == Identity.DeleteTeam(old(Contents()), org, team)
    {
      hide Inv;
      DeleteTeamKeepsInv(Contents(), org, team);
      var found := GetTeam(Contents(), org, team);
      if found.None? {
        return false;
      }
      var doomed := TeamKeys(Contents(), team);
      teams := teams - {team};
      teamsByName := teamsByName - {NameKey(found.value.org, found.value.name)};
      DropTeamMembers(doomed);
      return true;
    }

    method RemoveTeamMember(org: nat, team: nat, user: nat) returns (removed: bool)
      requires Valid()
      modifies this
      ensures Valid()
      ensures (Contents(), removed) == Identity.RemoveTeamMember(old(Contents()), org, team, user)
    {
      hide Inv;
      RemoveTeamMemberKeepsInv(Contents(), org, team, user);
      if GetTeam(Contents(), org, team).None? {
        return false;
      }
      removed := TeamKey(team, user) in teamMembers;
      teamMembers := teamMembers - {TeamKey(team, user)};
    }

    /** Delete the keys one by one. */
    method DropTeamMembers(doomed: set<TeamKey>)
      modifies this`teamMembers
      ensures teamMembers == old(teamMembers) - doomed
    {
      var rest := doomed;
      while rest != {}
        invariant rest <= doomed
        invariant teamMembers == old(teamMembers) - (doomed - rest)
        decreases rest
      {
        var k :| k in rest;
        rest := rest - {k};
        teamMembers := teamMembers - {k};
      }
    }
  }
}
