/**
 * What every sequence of operations on the in-memory identity store keeps, which
 * organizations an operation leaves alone, and which calls undo each other.
 */
module IdentityRuns {
  import opened Wrappers
  import opened Roster
  import opened Identity

  datatype Op =
    | OpCreateUser(id: nat, email: string, hash: string, now: int)
    | OpCreateOrganization(id: nat, name: string, now: int)
    | OpAddMembership(user: nat, org: nat, role: Role, now: int)
    | OpUpdateRole(user: nat, org: nat, role: Role)
    | OpRemoveMembership(user: nat, org: nat)
    | OpCreateTeam(id: nat, org: nat, name: string, now: int)
    | OpAddTeamMember(team: nat, user: nat, now: int)
    | OpDeleteTeam(org: nat, team: nat)
    | OpRemoveTeamMember(org: nat, team: nat, user: nat)

  function Apply(s: Store, op: Op): Store
  {
    match op
    case OpCreateUser(id, email, hash, now) => CreateUser(s, id, email, hash, now).0
    case OpCreateOrganization(id, name, now) => CreateOrganization(s, id, name, now).0
    case OpAddMembership(user, org, role, now) => AddMembership(s, user, org, role, now).0
    case OpUpdateRole(user, org, role) => UpdateRole(s, user, org, role).0
    case OpRemoveMembership(user, org) => RemoveMembership(s, user, org).0
    case OpCreateTeam(id, org, name, now) => CreateTeam(s, id, org, name, now).0
    case OpAddTeamMember(team, user, now) => AddTeamMember(s, team, user, now).0
    case OpDeleteTeam(org, team) => DeleteTeam(s, org, team).0
    case OpRemoveTeamMember(org, team, user) => RemoveTeamMember(s, org, team, user).0
  }

  function Exec(s: Store, ops: seq<Op>): Store
    decreases |ops|
  {
    if ops == [] then s else Exec(Apply(s, ops[0]), ops[1..])
  }

  /** A generated identifier is not in use when it is generated. */
  predicate Fresh(s: Store, op: Op)
  {
    match op
    case OpCreateUser(id, _, _, _) => id !in s.users
    case OpCreateTeam(id, _, _, _) => id !in s.teams
    case _ => true
  }

  predicate FreshRun(s: Store, ops: seq<Op>)
    decreases |ops|
  {
    ops != [] ==> Fresh(s, ops[0]) && FreshRun(Apply(s, ops[0]), ops[1..])
  }

  // ----- Invariants over whole runs -----

  lemma StepKeepsInv(s: Store, op: Op)
    requires Inv(s) && Fresh(s, op)
    ensures Inv(Apply(s, op))
  {
    match op
    case OpCreateUser(id, email, hash, now) => CreateUserKeepsInv(s, id, email, hash, now);
    case OpCreateOrganization(_, _, _) =>
    case OpAddMembership(user, org, role, now) => AddMembershipKeepsInv(s, user, org, role, now);
    case OpUpdateRole(user, org, role) => UpdateRoleKeepsInv(s, user, org, role);
    case OpRemoveMembership(user, org) => RemoveMembershipKeepsInv(s, user, org);
    case OpCreateTeam(id, org, name, now) => CreateTeamKeepsInv(s, id, org, name, now);
    case OpAddTeamMember(team, user, now) => AddTeamMemberKeepsInv(s, team, user, now);
    case OpDeleteTeam(org, team) => DeleteTeamKeepsInv(s, org, team);
    case OpRemoveTeamMember(org, team, user) => RemoveTeamMemberKeepsInv(s, org, team, user);
  }

  lemma {:induction false} RunKeepsInv(s: Store, ops: seq<Op>)
    requires Inv(s) && FreshRun(s, ops)
    ensures Inv(Exec(s, ops))
    decreases |ops|
  {
    if ops != [] {
      StepKeepsInv(s, ops[0]);
      RunKeepsInv(Apply(s, ops[0]), ops[1..]);
    }
  }

  /** Indexes and references are consistent in every state reachable from the empty store. */
  lemma ReachableConsistent(ops: seq<Op>)
    requires FreshRun(EMPTY, ops)
    ensures Inv(Exec(EMPTY, ops))
  {
    RunKeepsInv(EMPTY, ops);
  }

  // ----- The last owner -----

  /** A role change is refused exactly when it would take the organization's last owner. */
  lemma UpdateRefusedExactly(s: Store, user: nat, org: nat, role: Role)
    requires MemberKey(user, org) in s.memberships
    ensures var changed := s.(memberships := s.memberships[MemberKey(user, org) :=
                               s.memberships[MemberKey(user, org)].(role := role)]);
      UpdateRole(s, user, org, role).1 == Err(LastOwner) <==> (HasOwner(s, org) && !HasOwner(changed, org))
  {
    var key := MemberKey(user, org);
    var changed := s.(memberships := s.memberships[key := s.memberships[key].(role := role)]);
    assert role == Owner ==> changed.memberships[key].role == Owner;
    if k :| k in s.memberships && k.org == org && k.user != user && s.memberships[k].role == Owner {
      assert changed.memberships[k].role == Owner;
    }
  }

  /** A removal is refused exactly when it would take the organization's last owner. */
  lemma RemovalRefusedExactly(s: Store, user: nat, org: nat)
    requires MemberKey(user, org) in s.memberships
    ensures RemoveMembership(s, user, org).1 == Err(LastOwner)
      <==> HasOwner(s, org) && !HasOwner(s.(memberships := s.memberships - {MemberKey(user, org)}), org)
  {
    var left := s.(memberships := s.memberships - {MemberKey(user, org)});
    if k :| k in s.memberships && k.org == org && k.user != user && s.memberships[k].role == Owner {
      assert k in left.memberships;
    }
  }

  lemma OthersKeepMembers(s: Store, op: Op, k: MemberKey)
    requires k in s.memberships && !op.OpUpdateRole? && !op.OpRemoveMembership?
    ensures k in Apply(s, op).memberships && Apply(s, op).memberships[k] == s.memberships[k]
  {
  }

  /** A change or removal that goes through leaves the owner `k`, or another one. */
  lemma ChangeKeepsOwner(s: Store, op: Op, k: MemberKey)
    requires op.OpUpdateRole? || op.OpRemoveMembership?
    requires k in s.memberships && s.memberships[k].role == Owner
    ensures HasOwner(Apply(s, op), k.org)
  {
    var after := Apply(s, op);
    if k in after.memberships && after.memberships[k].role == Owner {
      assert HasOwner(after, k.org);
    } else {
      assert k == MemberKey(op.user, op.org);
      var other :| other in s.memberships && other.org == op.org && other.user != op.user
        && s.memberships[other].role == Owner;
      assert other in after.memberships && after.memberships[other] == s.memberships[other];
    }
  }

  lemma StepKeepsOwner(s: Store, op: Op, org: nat)
    requires HasOwner(s, org)
    ensures HasOwner(Apply(s, op), org)
  {
    hide Apply;
    var k :| k in s.memberships && k.org == org && s.memberships[k].role == Owner;
    if op.OpUpdateRole? || op.OpRemoveMembership? {
      ChangeKeepsOwner(s, op, k);
    } else {
      OthersKeepMembers(s, op, k);
    }
  }

  lemma {:induction false} OwnerForever(s: Store, ops: seq<Op>, org: nat)
    requires HasOwner(s, org)
    ensures HasOwner(Exec(s, ops), org)
    decreases |ops|
  {
    if ops != [] {
      StepKeepsOwner(s, ops[0], org);
      OwnerForever(Apply(s, ops[0]), ops[1..], org);
    }
  }

  // ----- Tenant isolation -----

  /** Everything an organization can see of the store. */
  datatype View = View(members: map<MemberKey, Membership>, teams: map<nat, Team>,
                       teamMembers: map<TeamKey, TeamMembership>)

  function ViewOf(s: Store, org: nat): View
  {
    View(map k | k in s.memberships && k.org == org :: s.memberships[k],
         map t | t in s.teams && s.teams[t].org == org :: s.teams[t],
         map k | k in s.teamMembers && k.team in s.teams && s.teams[k.team].org == org :: s.teamMembers[k])
  }

  /** The organization an operation works on, if any. */
  function Target(s: Store, op: Op): Option<nat>
  {
    match op
    case OpCreateUser(_, _, _, _) => None
    case OpCreateOrganization(_, _, _) => None
    case OpAddTeamMember(team, _, _) => if team in s.teams then Some(s.teams[team].org) else None
    case OpAddMembership(_, org, _, _) => Some(org)
    case OpUpdateRole(_, org, _) => Some(org)
    case OpRemoveMembership(_, org) => Some(org)
    case OpCreateTeam(_, org, _, _) => Some(org)
    case OpDeleteTeam(org, _) => Some(org)
    case OpRemoveTeamMember(org, _, _) => Some(org)
  }

  predicate TeamOf(s: Store, team: nat, org: nat)
  {
    team in s.teams && s.teams[team].org == org
  }

  /** Key by key, the two stores show `org` the same members. */
  ghost predicate SameMembers(s: Store, t: Store, org: nat)
  {
    forall k: MemberKey | k.org == org ::
      (k in s.memberships <==> k in t.memberships)
      && (k in s.memberships ==> t.memberships[k] == s.memberships[k])
  }

  ghost predicate SameTeams(s: Store, t: Store, org: nat)
  {
    forall team ::
      (TeamOf(s, team, org) <==> TeamOf(t, team, org))
      && (TeamOf(s, team, org) ==> t.teams[team] == s.teams[team])
  }

  ghost predicate SameTeamMembers(s: Store, t: Store, org: nat)
  {
    forall k: TeamKey | TeamOf(s, k.team, org) ::
      (k in s.teamMembers <==> k in t.teamMembers)
      && (k in s.teamMembers ==> t.teamMembers[k] == s.teamMembers[k])
  }

  lemma AgreeingTeams(s: Store, t: Store, org: nat)
    requires SameTeams(s, t, org)
    ensures ViewOf(s, org).teams == ViewOf(t, org).teams
  {
    var v, w := ViewOf(s, org).teams, ViewOf(t, org).teams;
    assert forall team :: team in v <==> TeamOf(s, team, org);
    assert forall team :: team in w <==> TeamOf(t, team, org);
  }

  lemma AgreeingTeamMembers(s: Store, t: Store, org: nat)
    requires SameTeams(s, t, org) && SameTeamMembers(s, t, org)
    ensures ViewOf(s, org).teamMembers == ViewOf(t, org).teamMembers
  {
    var v, w := ViewOf(s, org).teamMembers, ViewOf(t, org).teamMembers;
    assert forall k :: k in v <==> (k in s.teamMembers && TeamOf(s, k.team, org));
    assert forall k :: k in w <==> (k in t.teamMembers && TeamOf(t, k.team, org));
  }

  lemma AgreeingViews(s: Store, t: Store, org: nat)
    requires SameMembers(s, t, org) && SameTeams(s, t, org) && SameTeamMembers(s, t, org)
    ensures ViewOf(s, org) == ViewOf(t, org)
  {
    AgreeingTeams(s, t, org);
    AgreeingTeamMembers(s, t, org);
    assert ViewOf(s, org).members == ViewOf(t, org).members;
  }

  predicate OnMembers(op: Op)
  {
    op.OpAddMembership? || op.OpUpdateRole? || op.OpRemoveMembership?
  }

  lemma KeepsMembers(s: Store, op: Op)
    requires !OnMembers(op)
    ensures Apply(s, op).memberships == s.memberships
  {
  }

  lemma OthersMembers(s: Store, op: Op, other: nat)
    requires Target(s, op) != Some(other)
    ensures SameMembers(s, Apply(s, op), other)
  {
    if !OnMembers(op) {
      hide Apply;
      KeepsMembers(s, op);
    }
  }

  lemma KeepsTeams(s: Store, op: Op)
    requires !op.OpCreateTeam? && !op.OpDeleteTeam?
    ensures Apply(s, op).teams == s.teams
  {
  }

  lemma TeamsElsewhere(s: Store, op: Op, other: nat)
    requires op.OpCreateTeam? || op.OpDeleteTeam?
    requires Fresh(s, op) && Target(s, op) != Some(other)
    ensures SameTeams(s, Apply(s, op), other)
  {
  }

  lemma OthersTeams(s: Store, op: Op, other: nat)
    requires Fresh(s, op) && Target(s, op) != Some(other)
    ensures SameTeams(s, Apply(s, op), other)
  {
    hide Apply, Target, Fresh;
    if op.OpCreateTeam? || op.OpDeleteTeam? {
      TeamsElsewhere(s, op, other);
    } else {
      KeepsTeams(s, op);
    }
  }

  lemma OthersTeamMembers(s: Store, op: Op, other: nat)
    requires Fresh(s, op) && Target(s, op) != Some(other)
    ensures SameTeamMembers(s, Apply(s, op), other)
  {
    match op
    case OpRemoveMembership(user, org) => RemovalSpares(s, user, org, other);
    case OpDeleteTeam(org, team) => DeletionSpares(s, org, team, other);
    case _ =>
  }

  lemma RemovalSpares(s: Store, user: nat, org: nat, other: nat)
    requires org != other
    ensures SameTeamMembers(s, RemoveMembership(s, user, org).0, other)
  {
    assert forall k: TeamKey | TeamOf(s, k.team, other) :: k !in TeamKeysOf(s, user, org);
  }

  lemma DeletionSpares(s: Store, org: nat, team: nat, other: nat)
    requires org != other
    ensures SameTeamMembers(s, DeleteTeam(s, org, team).0, other)
  {
    assert GetTeam(s, org, team).Some? ==> forall k: TeamKey | TeamOf(s, k.team, other) :: k !in TeamKeys(s, team);
  }

  /** An operation changes nothing of what any other organization sees. */
  lemma OthersUntouched(s: Store, op: Op, other: nat)
    requires Inv(s) && Fresh(s, op) && Target(s, op) != Some(other)
    ensures ViewOf(Apply(s, op), other) == ViewOf(s, other)
  {
    OthersMembers(s, op, other);
    OthersTeams(s, op, other);
    OthersTeamMembers(s, op, other);
    AgreeingViews(s, Apply(s, op), other);
  }

  predicate NeverTargets(s: Store, ops: seq<Op>, org: nat)
    decreases |ops|
  {
    ops != [] ==> Target(s, ops[0]) != Some(org) && NeverTargets(Apply(s, ops[0]), ops[1..], org)
  }

  lemma {:induction false} RunOnOthers(s: Store, ops: seq<Op>, org: nat)
    requires Inv(s) && FreshRun(s, ops) && NeverTargets(s, ops, org)
    ensures ViewOf(Exec(s, ops), org) == ViewOf(s, org)
    decreases |ops|
  {
    if ops != [] {
      StepKeepsInv(s, ops[0]);
      OthersUntouched(s, ops[0], org);
      RunOnOthers(Apply(s, ops[0]), ops[1..], org);
    }
  }

  // ----- Calls that undo each other -----

  lemma CreateThenDeleteTeam(s: Store, id: nat, org: nat, name: string, now: int)
    requires Inv(s) && id !in s.teams && NameKey(org, name) !in s.teamsByName
    ensures DeleteTeam(CreateTeam(s, id, org, name, now).0, org, id) == (s, true)
  {
    var made := CreateTeam(s, id, org, name, now).0;
    assert TeamKeys(made, id) == {};
    assert made.teamMembers - {} == s.teamMembers;
    assert made.teams - {id} == s.teams;
    assert made.teamsByName - {NameKey(org, name)} == s.teamsByName;
  }

  /**
   * Removing a membership just added restores the store, except for the first owner of an
   * organization: that removal is refused.
   */
  lemma AddThenRemoveMembership(s: Store, user: nat, org: nat, role: Role, now: int)
    requires Inv(s) && MemberKey(user, org) !in s.memberships
    ensures var added := AddMembership(s, user, org, role, now).0;
      RemoveMembership(added, user, org)
        == if role == Owner && !HasOwner(s, org) then (added, Err(LastOwner)) else (s, Ok(true))
  {
    var key, added := MemberKey(user, org), AddMembership(s, user, org, role, now).0;
    assert added.memberships - {key} == s.memberships;
    assert TeamKeysOf(added, user, org) == {};
    assert added.teamMembers - {} == s.teamMembers;
    assert role == Owner ==> added.memberships[key].role == Owner;
    if k :| k in s.memberships && k.org == org && s.memberships[k].role == Owner {
      assert added.memberships[k].role == Owner && k.user != user;
    }
    if k :| k in added.memberships && k.org == org && k.user != user && added.memberships[k].role == Owner {
      assert k in s.memberships;
    }
  }

  /** A removed member keeps nothing in the organization: adding them back starts afresh. */
  lemma RemoveThenAddMembership(s: Store, user: nat, org: nat, role: Role, now: int)
    requires Inv(s) && RemoveMembership(s, user, org).1 == Ok(true)
    ensures var again := AddMembership(RemoveMembership(s, user, org).0, user, org, role, now);
      && again.1 == Ok(Membership(user, org, role, now))
      && TeamKeysOf(again.0, user, org) == {}
      && forall u | u != user :: TeamKeysOf(again.0, u, org) == TeamKeysOf(s, u, org)
  {
    var again := AddMembership(RemoveMembership(s, user, org).0, user, org, role, now).0;
    forall u | u != user ensures TeamKeysOf(again, u, org) == TeamKeysOf(s, u, org) {
      assert TeamKeysOf(again, u, org) !! TeamKeysOf(s, user, org);
    }
  }

  /** Adding a member to a team twice is adding them once, at the first time. */
  lemma AddTeamMemberTwice(s: Store, team: nat, user: nat, now: int, later: int)
    requires AddTeamMember(s, team, user, now).1.Ok?
    ensures var once := AddTeamMember(s, team, user, now);
      AddTeamMember(once.0, team, user, later) == once
  {
  }
}
