/**
 * What each operation of the in-memory store does, entry by entry: when it is refused, what
 * it leaves behind, and that nothing else changes.
 */
module IdentityEffects {
  import opened Wrappers
  import opened Roster
  import opened Identity

  /** Every key but those in `keys` is bound as before. */
  ghost predicate SameElsewhere<K(!new), V>(before: map<K, V>, after: map<K, V>, keys: set<K>)
  {
    forall k | k !in keys :: (k in after <==> k in before) && (k in before ==> after[k] == before[k])
  }

  // ----- Users and organizations -----

  /** Refused exactly when some user has the e-mail; otherwise that lookup finds the new user. */
  lemma CreateUserEffect(s: Store, id: nat, email: string, hash: string, now: int)
    requires Inv(s) && id !in s.users
    ensures var (t, r) := CreateUser(s, id, email, hash, now);
      && (r.Err? <==> exists u | u in s.users :: s.users[u].email == email)
      && (r.Err? ==> r.error == EmailExists && t == s)
      && (r.Ok? ==>
            && id in t.users && t.users[id] == r.value == User(id, email, hash, now)
            && SameElsewhere(s.users, t.users, {id})
            && email in t.usersByEmail && t.usersByEmail[email] == id
            && SameElsewhere(s.usersByEmail, t.usersByEmail, {email})
            && t == s.(users := t.users, usersByEmail := t.usersByEmail))
  {
    if u :| u in s.users && s.users[u].email == email {
      assert s.users[u].email in s.usersByEmail;
    }
  }

  lemma CreateOrganizationEffect(s: Store, id: nat, name: string, now: int)
    ensures var (t, r) := CreateOrganization(s, id, name, now);
      && id in t.orgs && t.orgs[id] == r == Org(id, name, now)
      && SameElsewhere(s.orgs, t.orgs, {id})
      && t == s.(orgs := t.orgs)
  {
  }

  // ----- Memberships -----

  lemma AddMembershipEffect(s: Store, user: nat, org: nat, role: Role, now: int)
    ensures var (t, r) := AddMembership(s, user, org, role, now); var key := MemberKey(user, org);
      && (r.Err? <==> key in s.memberships)
      && (r.Err? ==> r.error == MembershipExists && t == s)
      && (r.Ok? ==>
            && key in t.memberships && t.memberships[key] == r.value == Membership(user, org, role, now)
            && SameElsewhere(s.memberships, t.memberships, {key})
            && t == s.(memberships := t.memberships))
  {
  }

  /** A change that goes through alters one role and nothing else, not even the joining time. */
  lemma UpdateRoleEffect(s: Store, user: nat, org: nat, role: Role)
    requires Inv(s)
    ensures var (t, r) := UpdateRole(s, user, org, role); var key := MemberKey(user, org);
      && (r == Ok(None) <==> key !in s.memberships)
      && (r.Err? || r == Ok(None) ==> t == s)
      && (r.Ok? && r.value.Some? ==>
            && key in s.memberships && key in t.memberships && t.memberships[key] == r.value.value
            && t.memberships[key] == s.memberships[key].(role := role)
            && SameElsewhere(s.memberships, t.memberships, {key})
            && t == s.(memberships := t.memberships))
  {
  }

  /** A removal that goes through takes the membership and the user's team rows in the organization, no others. */
  lemma RemoveMembershipEffect(s: Store, user: nat, org: nat)
    requires Inv(s)
    ensures var (t, r) := RemoveMembership(s, user, org); var key := MemberKey(user, org);
      && (r == Ok(false) <==> key !in s.memberships)
      && (r != Ok(true) ==> t == s)
      && (r == Ok(true) ==>
            && key !in t.memberships && SameElsewhere(s.memberships, t.memberships, {key})
            && (forall k :: k in t.teamMembers <==>
                  k in s.teamMembers && !(k.user == user && k.team in s.teams && s.teams[k.team].org == org))
            && (forall k | k in t.teamMembers :: t.teamMembers[k] == s.teamMembers[k])
            && t == s.(memberships := t.memberships, teamMembers := t.teamMembers))
  {
  }

  // ----- Teams -----

  /** Refused exactly when the organization has a team of this name. */
  lemma CreateTeamEffect(s: Store, id: nat, org: nat, name: string, now: int)
    requires Inv(s) && id !in s.teams
    ensures var (t, r) := CreateTeam(s, id, org, name, now);
      && (r.Err? <==> exists other | other in s.teams :: s.teams[other].org == org && s.teams[other].name == name)
      && (r.Err? ==> r.error == TeamExists && t == s)
      && (r.Ok? ==>
            && id in t.teams && t.teams[id] == r.value == Team(id, org, name, now)
            && SameElsewhere(s.teams, t.teams, {id})
            && NameKey(org, name) in t.teamsByName && t.teamsByName[NameKey(org, name)] == id
            && SameElsewhere(s.teamsByName, t.teamsByName, {NameKey(org, name)})
            && t == s.(teams := t.teams, teamsByName := t.teamsByName))
  {
    if other :| other in s.teams && s.teams[other].org == org && s.teams[other].name == name {
      assert NameKey(s.teams[other].org, s.teams[other].name) in s.teamsByName;
    }
  }

  /** Only members of the team's organization join; whoever is in the team already keeps their row. */
  lemma AddTeamMemberEffect(s: Store, team: nat, user: nat, now: int)
    ensures var (t, r) := AddTeamMember(s, team, user, now); var key := TeamKey(team, user);
      && (r == Err(TeamNotFound) <==> team !in s.teams)
      && (r == Err(OrgMismatch) <==> team in s.teams && MemberKey(user, s.teams[team].org) !in s.memberships)
      && (r.Ok? <==> team in s.teams && MemberKey(user, s.teams[team].org) in s.memberships)
      && (r.Err? ==> t == s)
      && (r.Ok? ==>
            && key in t.teamMembers && t.teamMembers[key] == r.value
            && r.value == (if key in s.teamMembers then s.teamMembers[key] else TeamMembership(team, user, now))
            && SameElsewhere(s.teamMembers, t.teamMembers, {key})
            && t == s.(teamMembers := t.teamMembers))
  {
  }

  /** Deletes a team of the organization with its name and its rows, and nothing of any other team. */
  lemma DeleteTeamEffect(s: Store, org: nat, team: nat)
    requires Inv(s)
    ensures var (t, deleted) := DeleteTeam(s, org, team);
      && (deleted <==> team in s.teams && s.teams[team].org == org)
      && (!deleted ==> t == s)
      && (deleted ==>
            && team !in t.teams && SameElsewhere(s.teams, t.teams, {team})
            && (forall k :: k in t.teamsByName <==> k in s.teamsByName && s.teamsByName[k] != team)
            && (forall k | k in t.teamsByName :: t.teamsByName[k] == s.teamsByName[k])
            && (forall k :: k in t.teamMembers <==> k in s.teamMembers && k.team != team)
            && (forall k | k in t.teamMembers :: t.teamMembers[k] == s.teamMembers[k])
            && t == s.(teams := t.teams, teamsByName := t.teamsByName, teamMembers := t.teamMembers))
  {
  }

  /** Afterwards the user is not in the team, if the team is the organization's; every other row stays. */
  lemma RemoveTeamMemberEffect(s: Store, org: nat, team: nat, user: nat)
    ensures var (t, removed) := RemoveTeamMember(s, org, team, user); var key := TeamKey(team, user);
      && (removed <==> team in s.teams && s.teams[team].org == org && key in s.teamMembers)
      && (team in s.teams && s.teams[team].org == org ==> key !in t.teamMembers)
      && (!removed ==> t == s)
      && SameElsewhere(s.teamMembers, t.teamMembers, {key})
      && t == s.(teamMembers := t.teamMembers)
  {
    if !(TeamKey(team, user) in s.teamMembers) {
      assert s.teamMembers - {TeamKey(team, user)} == s.teamMembers;
    }
  }

  /** Removing a team member just added restores the store. */
  lemma AddThenRemoveTeamMember(s: Store, team: nat, user: nat, now: int)
    requires TeamKey(team, user) !in s.teamMembers && AddTeamMember(s, team, user, now).1.Ok?
    ensures RemoveTeamMember(AddTeamMember(s, team, user, now).0, s.teams[team].org, team, user) == (s, true)
  {
    var added := AddTeamMember(s, team, user, now).0;
    assert added.teamMembers - {TeamKey(team, user)} == s.teamMembers;
  }
}
