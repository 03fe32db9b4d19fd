/**
 * The contents of the in-memory identity store and its operations as functions on them.
 * Module IdentityStore updates the seven dictionaries in place against these functions;
 * module IdentityRuns proves what they keep over whole runs.
 *
 * Identifiers and timestamps, which the program takes from `uuid4` and the clock, are
 * parameters here.
 */
module Identity {
  import opened Wrappers
  import opened Roster

  datatype User = User(id: nat, email: string, passwordHash: string, createdAt: int)

  datatype Org = Org(id: nat, name: string, createdAt: int)

  datatype Membership = Membership(user: nat, org: nat, role: Role, createdAt: int)

  datatype Team = Team(id: nat, org: nat, name: string, createdAt: int)

  datatype TeamMembership = TeamMembership(team: nat, user: nat, createdAt: int)

  datatype MemberKey = MemberKey(user: nat, org: nat)

  datatype NameKey = NameKey(org: nat, name: string)

  datatype TeamKey = TeamKey(team: nat, user: nat)

  datatype Error = EmailExists | MembershipExists | LastOwner | TeamExists | TeamNotFound | OrgMismatch

  datatype Store = Store(
    users: map<nat, User>,
    usersByEmail: map<string, nat>,
    orgs: map<nat, Org>,
    memberships: map<MemberKey, Membership>,
    teams: map<nat, Team>,
    teamsByName: map<NameKey, nat>,
    teamMembers: map<TeamKey, TeamMembership>)

  const EMPTY := Store(map[], map[], map[], map[], map[], map[], map[])

  // ----- The invariant -----

  /** The email index is a bijection with the users. */
  ghost predicate EmailIndex(s: Store)
  {
    && (forall id | id in s.users ::
          s.users[id].id == id
          && s.users[id].email in s.usersByEmail && s.usersByEmail[s.users[id].email] == id)
    && (forall email | email in s.usersByEmail ::
          s.usersByEmail[email] in s.users && s.users[s.usersByEmail[email]].email == email)
  }

  /** The (org, name) index is exactly the teams map. */
  ghost predicate TeamIndex(s: Store)
  {
    && (forall id | id in s.teams ::
          var t := s.teams[id];
          t.id == id && NameKey(t.org, t.name) in s.teamsByName && s.teamsByName[NameKey(t.org, t.name)] == id)
    && (forall k | k in s.teamsByName ::
          s.teamsByName[k] in s.teams
          && s.teams[s.teamsByName[k]].org == k.org && s.teams[s.teamsByName[k]].name == k.name)
  }

  ghost predicate KeysAgree(s: Store)
  {
    && (forall k | k in s.memberships :: k == MemberKey(s.memberships[k].user, s.memberships[k].org))
    && (forall k | k in s.teamMembers :: k == TeamKey(s.teamMembers[k].team, s.teamMembers[k].user))
  }

  /** Every team membership is backed by a membership in the team's organization. */
  ghost predicate Backed(s: Store)
  {
    forall k | k in s.teamMembers ::
      k.team in s.teams && MemberKey(k.user, s.teams[k.team].org) in s.memberships
  }

  ghost predicate Inv(s: Store)
  {
    EmailIndex(s) && TeamIndex(s) && KeysAgree(s) && Backed(s)
  }

  // ----- Owners -----

  predicate HasOwner(s: Store, org: nat)
  {
    exists k | k in s.memberships :: k.org == org && s.memberships[k].role == Owner
  }

  predicate AnotherOwns(s: Store, user: nat, org: nat)
  {
    exists k | k in s.memberships :: k.org == org && k.user != user && s.memberships[k].role == Owner
  }

  predicate Orphans(s: Store, user: nat, org: nat, newRole: Option<Role>)
  {
    HasOwner(s, org) && !AnotherOwns(s, user, org) && newRole != Some(Owner)
  }

  // ----- The operations on contents -----

  function CreateUser(s: Store, id: nat, email: string, hash: string, now: int): (Store, Result<User, Error>)
  {
    if email in s.usersByEmail then (s, Err(EmailExists))
    else
      var user := User(id, email, hash, now);
      (s.(users := s.users[id := user], usersByEmail := s.usersByEmail[email := id]), Ok(user))
  }

  function CreateOrganization(s: Store, id: nat, name: string, now: int): (Store, Org)
  {
    (s.(orgs := s.orgs[id := Org(id, name, now)]), Org(id, name, now))
  }

  function AddMembership(s: Store, user: nat, org: nat, role: Role, now: int): (Store, Result<Membership, Error>)
  {
    var key, m := MemberKey(user, org), Membership(user, org, role, now);
    if key in s.memberships then (s, Err(MembershipExists))
    else (s.(memberships := s.memberships[key := m]), Ok(m))
  }

  function UpdateRole(s: Store, user: nat, org: nat, role: Role): (Store, Result<Option<Membership>, Error>)
  {
    var key := MemberKey(user, org);
    if key !in s.memberships then (s, Ok(None))
    else if Orphans(s, user, org, Some(role)) then (s, Err(LastOwner))
    else
      var updated := Membership(user, org, role, s.memberships[key].createdAt);
      (s.(memberships := s.memberships[key := updated]), Ok(Some(updated)))
  }

  function TeamKeysOf(s: Store, user: nat, org: nat): set<TeamKey>
  {
    set k | k in s.teamMembers && k.user == user && k.team in s.teams && s.teams[k.team].org == org
  }

  function RemoveMembership(s: Store, user: nat, org: nat): (Store, Result<bool, Error>)
  {
    var key := MemberKey(user, org);
    if key !in s.memberships then (s, Ok(false))
    else if Orphans(s, user, org, None) then (s, Err(LastOwner))
    else
      (s.(memberships := s.memberships - {key}, teamMembers := s.teamMembers - TeamKeysOf(s, user, org)), Ok(true))
  }

  function CreateTeam(s: Store, id: nat, org: nat, name: string, now: int): (Store, Result<Team, Error>)
  {
    var key, team := NameKey(org, name), Team(id, org, name, now);
    if key in s.teamsByName then (s, Err(TeamExists))
    else (s.(teams := s.teams[id := team], teamsByName := s.teamsByName[key := id]), Ok(team))
  }

  function AddTeamMember(s: Store, team: nat, user: nat, now: int): (Store, Result<TeamMembership, Error>)
  {
    var key := TeamKey(team, user);
    if team !in s.teams then (s, Err(TeamNotFound))
    else if MemberKey(user, s.teams[team].org) !in s.memberships then (s, Err(OrgMismatch))
    else if key in s.teamMembers then (s, Ok(s.teamMembers[key]))
    else
      var m := TeamMembership(team, user, now);
      (s.(teamMembers := s.teamMembers[key := m]), Ok(m))
  }

  function GetTeam(s: Store, org: nat, team: nat): Option<Team>
  {
    if team in s.teams && s.teams[team].org == org then Some(s.teams[team]) else None
  }

  function TeamKeys(s: Store, team: nat): set<TeamKey>
  {
    set k | k in s.teamMembers && k.team == team
  }

  function DeleteTeam(s: Store, org: nat, team: nat): (Store, bool)
  {
    if GetTeam(s, org, team).None? then (s, false)
    else
      (s.(teams := s.teams - {team},
          teamsByName := s.teamsByName - {NameKey(s.teams[team].org, s.teams[team].name)},
          teamMembers := s.teamMembers - TeamKeys(s, team)), true)
  }

  function RemoveTeamMember(s: Store, org: nat, team: nat, user: nat): (Store, bool)
  {
    if GetTeam(s, org, team).None? then (s, false)
    else (s.(teamMembers := s.teamMembers - {TeamKey(team, user)}), TeamKey(team, user) in s.teamMembers)
  }

  /** The rule over the listed pairs is the rule over the memberships. */
  lemma RolesDecide(s: Store, org: nat, roles: seq<Entry>, user: nat, newRole: Option<Role>)
    requires forall e :: e in roles <==>
      (MemberKey(e.user, org) in s.memberships && s.memberships[MemberKey(e.user, org)].role == e.role)
    ensures OrphansOwner(roles, user, newRole) <==> Orphans(s, user, org, newRole)
  {
    forall k | k in s.memberships && k.org == org ensures Entry(k.user, s.memberships[k].role) in roles {
      assert k == MemberKey(k.user, org);
    }
    if AnyOwner(roles) {
      var e :| e in roles && e.role == Owner;
      assert MemberKey(e.user, org) in s.memberships;
    }
    if OthersOwn(roles, user) {
      var e :| e in roles && e.user != user && e.role == Owner;
      assert MemberKey(e.user, org) in s.memberships;
    }
  }

  // ----- Each operation keeps the invariant -----

  lemma CreateUserKeepsInv(s: Store, id: nat, email: string, hash: string, now: int)
    requires Inv(s) && id !in s.users
    ensures Inv(CreateUser(s, id, email, hash, now).0)
  {
    assert EmailIndex(CreateUser(s, id, email, hash, now).0);
  }

  lemma AddMembershipKeepsInv(s: Store, user: nat, org: nat, role: Role, now: int)
    requires Inv(s)
    ensures Inv(AddMembership(s, user, org, role, now).0)
  {
    assert Backed(AddMembership(s, user, org, role, now).0);
  }

  lemma UpdateRoleKeepsInv(s: Store, user: nat, org: nat, role: Role)
    requires Inv(s)
    ensures Inv(UpdateRole(s, user, org, role).0)
  {
    assert Backed(UpdateRole(s, user, org, role).0);
  }

  lemma RemoveMembershipKeepsInv(s: Store, user: nat, org: nat)
    requires Inv(s)
    ensures Inv(RemoveMembership(s, user, org).0)
  {
    var after := RemoveMembership(s, user, org).0;
    forall k | k in after.teamMembers
      ensures k.team in after.teams && MemberKey(k.user, after.teams[k.team].org) in after.memberships
    {
      assert after != s ==> k !in TeamKeysOf(s, user, org);
    }
  }

  lemma CreateTeamKeepsInv(s: Store, id: nat, org: nat, name: string, now: int)
    requires Inv(s) && id !in s.teams
    ensures Inv(CreateTeam(s, id, org, name, now).0)
  {
    var after := CreateTeam(s, id, org, name, now).0;
    assert Backed(after);
    assert TeamIndex(after);
  }

  lemma AddTeamMemberKeepsInv(s: Store, team: nat, user: nat, now: int)
    requires Inv(s)
    ensures Inv(AddTeamMember(s, team, user, now).0)
  {
    assert Backed(AddTeamMember(s, team, user, now).0);
  }

  lemma DeleteTeamKeepsInv(s: Store, org: nat, team: nat)
    requires Inv(s)
    ensures Inv(DeleteTeam(s, org, team).0)
  {
    var after := DeleteTeam(s, org, team).0;
    assert TeamIndex(after);
    assert Backed(after);
  }

  lemma RemoveTeamMemberKeepsInv(s: Store, org: nat, team: nat, user: nat)
    requires Inv(s)
    ensures Inv(RemoveTeamMember(s, org, team, user).0)
  {
    assert Backed(RemoveTeamMember(s, org, team, user).0);
  }
}
