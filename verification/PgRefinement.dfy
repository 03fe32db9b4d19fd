/**
 * What a transaction commits is what the in-memory store would do to the committed rows:
 * under every interleaving each commit is one operation of the simple store.
 */
module PgRefinement {
  import opened Wrappers
  import opened Roster
  import opened PgIdentity
  import opened PgIdentitySafety
  import opened PgIdentityProgress
  import Identity

  // ----- The committed rows as contents of the in-memory store -----

  /** A row's number stands for its creation time; names and users are not part of the locking model. */
  ghost function StoreOf(db: Db): Identity.Store
  {
    Identity.Store(map[], map[], map[], MembershipsOf(db), TeamsOf(db), map[], TeamMembersOf(db))
  }

  ghost function MembershipsOf(db: Db): (r: map<Identity.MemberKey, Identity.Membership>)
    ensures forall m :: m in r <==> Key(m.user, m.org) in db.members
    ensures forall m | m in r ::
      var row := db.members[Key(m.user, m.org)]; r[m] == Identity.Membership(m.user, m.org, row.role, row.birth)
  {
    var keys := set k | k in db.members :: Identity.MemberKey(k.user, k.org);
    assert forall m: Identity.MemberKey | Key(m.user, m.org) in db.members :: m in keys by {
      forall m: Identity.MemberKey | Key(m.user, m.org) in db.members ensures m in keys {
        var k := Key(m.user, m.org);
        assert m == Identity.MemberKey(k.user, k.org);
      }
    }
    map m | m in keys ::
      Identity.Membership(m.user, m.org, db.members[Key(m.user, m.org)].role, db.members[Key(m.user, m.org)].birth)
  }

  ghost function TeamsOf(db: Db): map<nat, Identity.Team>
  {
    map t | t in db.teams :: Identity.Team(t, db.teams[t], "", 0)
  }

  ghost function TeamMembersOf(db: Db): (r: map<Identity.TeamKey, Identity.TeamMembership>)
    ensures forall k :: k in r <==> TeamRow(k.team, k.user) in db.teamRows
    ensures forall k | k in r :: r[k] == Identity.TeamMembership(k.team, k.user, 0)
  {
    var keys := set r | r in db.teamRows :: Identity.TeamKey(r.team, r.user);
    assert forall k: Identity.TeamKey | TeamRow(k.team, k.user) in db.teamRows :: k in keys by {
      forall k: Identity.TeamKey | TeamRow(k.team, k.user) in db.teamRows ensures k in keys {
        var r := TeamRow(k.team, k.user);
        assert k == Identity.TeamKey(r.team, r.user);
      }
    }
    map k | k in keys :: Identity.TeamMembership(k.team, k.user, 0)
  }

  // ----- The decision on the locked roster holds on the committed one -----

  /** Also when owners were added after the snapshot: they can only make the change safer. */
  lemma RosterDecides(db: Db, t: Txn)
    requires TxnInv(db, t) && !t.task.AddTeamMember? && t.phase.Written?
    ensures Key(t.task.user, t.task.org) in db.members
    ensures !Identity.Orphans(StoreOf(db), t.task.user, t.task.org, NewRole(t.task))
  {
    var roles, user, org, store := t.phase.roles, t.task.user, t.task.org, StoreOf(db);
    var mine :| mine in roles && mine.user == user;
    if OthersOwn(roles, user) {
      var e :| e in roles && e.user != user && e.role == Owner;
      assert Identity.MemberKey(e.user, org) in store.memberships;
    } else if !AnyOwner(roles) && Identity.HasOwner(store, org) {
      var k :| k in store.memberships && k.org == org && store.memberships[k].role == Owner;
      assert mine.role != Owner;
      assert k.user != user;
    }
  }

  // ----- Commits are operations of the in-memory store -----

  lemma ChangeActs(db: Db, t: Txn)
    requires TxnInv(db, t) && t.task.ChangeRole? && t.phase.Written?
    ensures var (after, phase) := RosterStatement(db, t);
      var (store, r) := Identity.UpdateRole(StoreOf(db), t.task.user, t.task.org, t.task.role);
      phase == Finished(Done) && store == StoreOf(after) && r.Ok? && r.value.Some?
  {
    RosterDecides(db, t);
    hide TxnInv, Identity.Orphans;
    var after := RosterStatement(db, t).0;
    var store := Identity.UpdateRole(StoreOf(db), t.task.user, t.task.org, t.task.role).0;
    assert store.memberships == MembershipsOf(after);
  }

  lemma RemovalActs(db: Db, t: Txn)
    requires DbInv(db) && TxnInv(db, t) && t.task.Remove? && t.phase.Written?
    ensures var (after, phase) := RosterStatement(db, t);
      && phase == Finished(Done)
      && Identity.RemoveMembership(StoreOf(db), t.task.user, t.task.org) == (StoreOf(after), Ok(true))
  {
    RosterDecides(db, t);
    hide TxnInv, DbInv, Identity.Orphans, Identity.TeamKeysOf, TeamRowsOf;
    var user, org := t.task.user, t.task.org;
    var after := RosterStatement(db, t).0;
    assert MembershipsOf(db) - {Identity.MemberKey(user, org)} == MembershipsOf(after);
    RemovedTeamMembers(db, t, after);
  }

  lemma RemovedTeamMembers(db: Db, t: Txn, after: Db)
    requires DbInv(db) && TxnInv(db, t) && t.task.Remove? && t.phase.Written?
    requires after.teamRows == db.teamRows - t.phase.doomed
    ensures TeamMembersOf(db) - Identity.TeamKeysOf(StoreOf(db), t.task.user, t.task.org) == TeamMembersOf(after)
  {
    hide TxnInv, DbInv;
    forall k: Identity.TeamKey | k in TeamMembersOf(db)
      ensures k in Identity.TeamKeysOf(StoreOf(db), t.task.user, t.task.org)
        <==> TeamRow(k.team, k.user) in t.phase.doomed
    {
      RowDoomed(db, t, TeamRow(k.team, k.user));
    }
  }

  /** Of the rows that are still there, the doomed ones are the user's in the organization. */
  lemma RowDoomed(db: Db, t: Txn, r: TeamRow)
    requires DbInv(db) && TxnInv(db, t) && t.task.Remove? && t.phase.Written? && r in db.teamRows
    ensures r in t.phase.doomed <==> r in TeamRowsOf(db, t.task.user, t.task.org)
  {
  }

  lemma TeamAdditionActs(db: Db, t: Txn)
    requires DbInv(db) && TxnInv(db, t) && t.task.AddTeamMember? && t.phase.Inserted?
    ensures var (after, phase) := TeamStatement(db, t);
      var (store, r) := Identity.AddTeamMember(StoreOf(db), t.task.team, t.task.user, 0);
      phase == Finished(Done) && store == StoreOf(after) && r.Ok?
  {
    TeamAdditionReady(db, t);
    hide TxnInv, DbInv, TeamMembersOf;
    AddedTeamMember(db, TeamRow(t.task.team, t.task.user));
  }

  lemma TeamAdditionReady(db: Db, t: Txn)
    requires DbInv(db) && TxnInv(db, t) && t.task.AddTeamMember? && t.phase.Inserted?
    ensures t.task.team in db.teams && Key(t.task.user, db.teams[t.task.team]) in db.members
  {
  }

  lemma AddedTeamMember(db: Db, row: TeamRow)
    ensures var k := Identity.TeamKey(row.team, row.user); var rows := TeamMembersOf(db);
      TeamMembersOf(db.(teamRows := db.teamRows + {row}))
        == if k in rows then rows else rows[k := Identity.TeamMembership(row.team, row.user, 0)]
  {
  }

  /** The in-memory operation that a task asks for: the new contents, and whether it goes through. */
  ghost function Perform(store: Identity.Store, task: Task): (Identity.Store, bool)
  {
    match task
    case ChangeRole(user, org, role) =>
      var (after, r) := Identity.UpdateRole(store, user, org, role);
      (after, r.Ok? && r.value.Some?)
    case Remove(user, org) =>
      var (after, r) := Identity.RemoveMembership(store, user, org);
      (after, r == Ok(true))
    case AddTeamMember(team, user) =>
      var (after, r) := Identity.AddTeamMember(store, team, user, 0);
      (after, r.Ok?)
  }

  lemma StatementActs(db: Db, t: Txn)
    requires DbInv(db) && TxnInv(db, t)
    ensures var (after, phase) := Statement(db, t);
      if phase == Finished(Done) && !t.phase.Finished?
      then Perform(StoreOf(db), t.task) == (StoreOf(after), true)
      else after == db
  {
    hide StoreOf, Identity.UpdateRole, Identity.RemoveMembership, Identity.AddTeamMember;
    if t.task.AddTeamMember? {
      if t.phase.Inserted? {
        TeamAdditionActs(db, t);
      }
    } else if t.phase.Written? {
      if t.task.ChangeRole? {
        ChangeActs(db, t);
      } else {
        RemovalActs(db, t);
      }
    }
  }

  /**
   * In every reachable state, a statement that commits acts on the committed rows as the in-memory
   * operation would, which goes through; any other statement leaves the rows as they are.
   */
  lemma CommitsAreOperations(s: State, actions: seq<Action>, id: nat)
    requires Initial(s)
    requires var now := Exec(s, actions); id in now.txns && !Blocked(now, id)
    ensures var now := Exec(s, actions); var next := Apply(now, Advance(id));
      if next.txns[id].phase == Finished(Done) && !now.txns[id].phase.Finished?
      then Perform(StoreOf(now.db), now.txns[id].task) == (StoreOf(next.db), true)
      else next.db == now.db
  {
    RunKeepsInv(s, actions);
    StatementActs(Exec(s, actions).db, Exec(s, actions).txns[id]);
  }

  // ----- Decisions -----

  /** The committed rows, less the memberships inserted since row number `asOf` was next. */
  ghost function Older(db: Db, asOf: nat): Db
  {
    db.(members := map k | k in db.members && db.members[k].birth < asOf :: db.members[k])
  }

  /** What the transaction decides: to refuse, or to go on to the write. */
  lemma DecisionExact(db: Db, t: Txn)
    requires TxnInv(db, t) && !t.task.AddTeamMember? && t.phase.Locking? && t.phase.pending == []
    ensures var store := StoreOf(Older(db, t.phase.asOf)); var phase := RosterStatement(db, t).1;
      var member := Identity.MemberKey(t.task.user, t.task.org) in store.memberships;
      var orphans := Identity.Orphans(store, t.task.user, t.task.org, NewRole(t.task));
      && (phase == Finished(NotFound) <==> !member)
      && (phase == Finished(LastOwner) <==> member && orphans)
      && (phase == Decided(t.phase.roles) <==> member && !orphans)
  {
    var store := StoreOf(Older(db, t.phase.asOf));
    var roles, user, org := t.phase.roles, t.task.user, t.task.org;
    forall e: Entry
      ensures var k := Identity.MemberKey(e.user, org);
        e in roles <==> (k in store.memberships && store.memberships[k].role == e.role)
    {
      ListedIsCommitted(db, t, e);
    }
    Identity.RolesDecide(store, org, roles, user, NewRole(t.task));
    if Identity.MemberKey(user, org) in store.memberships {
      assert Entry(user, store.memberships[Identity.MemberKey(user, org)].role) in roles;
    }
  }

  /**
   * In every reachable state a decision is the in-memory store's decision on the committed rows, less
   * the memberships inserted since the snapshot: not found, last owner, or go on.
   */
  lemma DecisionIsInMemoryDecision(s: State, actions: seq<Action>, id: nat)
    requires Initial(s)
    requires var now := Exec(s, actions);
      && id in now.txns && !now.txns[id].task.AddTeamMember?
      && now.txns[id].phase.Locking? && now.txns[id].phase.pending == []
    ensures var now := Exec(s, actions); var t := now.txns[id];
      var store := StoreOf(Older(now.db, t.phase.asOf)); var phase := Apply(now, Advance(id)).txns[id].phase;
      var member := Identity.MemberKey(t.task.user, t.task.org) in store.memberships;
      var orphans := Identity.Orphans(store, t.task.user, t.task.org, NewRole(t.task));
      && (phase == Finished(NotFound) <==> !member)
      && (phase == Finished(LastOwner) <==> member && orphans)
      && (phase.Decided? <==> member && !orphans)
  {
    RunKeepsInv(s, actions);
    DecisionExact(Exec(s, actions).db, Exec(s, actions).txns[id]);
  }

  // ----- A task alone is one in-memory operation, from beginning to end -----

  /** What the in-memory operation reports. */
  ghost function OutcomeOf(store: Identity.Store, task: Task): Outcome
  {
    match task
    case ChangeRole(user, org, role) =>
      var r := Identity.UpdateRole(store, user, org, role).1;
      if r.Err? then LastOwner else if r.value.None? then NotFound else Done
    case Remove(user, org) =>
      var r := Identity.RemoveMembership(store, user, org).1;
      if r.Err? then LastOwner else if r.value then Done else NotFound
    case AddTeamMember(team, user) =>
      var r := Identity.AddTeamMember(store, team, user, 0).1;
      if r.Ok? then Done else if r.error == Identity.TeamNotFound then NoTeam else OrgMismatch
  }

  lemma RefusedUnchanged(store: Identity.Store, task: Task)
    ensures Perform(store, task).1 <==> OutcomeOf(store, task) == Done
    ensures !Perform(store, task).1 ==> Perform(store, task).0 == store
  {
  }

  /** A transaction part way through its task, begun on the rows `db`, where the rows are now `now`. */
  ghost predicate Midway(db: Db, now: Db, t: Txn)
  {
    match t.phase
    case Finished(outcome) =>
      outcome == OutcomeOf(StoreOf(db), t.task) && StoreOf(now) == Perform(StoreOf(db), t.task).0
    case Locking(asOf, _, _) => now == db && asOf == db.births
    case TeamRead(org) => now == db && InTeamOf(db, t.task, org)
    case Guarding(org, birth) => now == db && InTeamOf(db, t.task, org) && SeenRow(db, Key(t.task.user, org), birth)
    case Guarded(org) => now == db && InTeamOf(db, t.task, org)
    case _ => now == db
  }

  /** It is the only transaction. */
  ghost predicate Alone(db: Db, s: State, id: nat, task: Task)
  {
    && s.txns.Keys == {id} && s.txns[id].task == task
    && DbInv(s.db) && TxnInv(s.db, s.txns[id]) && Midway(db, s.db, s.txns[id])
  }

  ghost predicate InTeamOf(db: Db, task: Task, org: nat)
  {
    task.AddTeamMember? && task.team in db.teams && db.teams[task.team] == org
  }

  lemma RosterAlone(db: Db, t: Txn)
    requires DbInv(db) && TxnInv(db, t) && !t.task.AddTeamMember? && !t.phase.Finished?
    requires t.phase.Locking? ==> t.phase.asOf == db.births
    ensures var phase := RosterStatement(db, t).1;
      && (phase.Locking? ==> phase.asOf == db.births)
      && (phase.Finished? && phase.outcome != Done ==> phase.outcome == OutcomeOf(StoreOf(db), t.task))
      && (phase.Locking? || phase.Decided? || phase.Written? || phase.Finished?)
  {
    if t.phase.Locking? && t.phase.pending == [] {
      assert Older(db, db.births).members == db.members;
      assert Older(db, db.births) == db;
      DecisionExact(db, t);
    } else if t.phase.Written? {
      StatementActs(db, t);
      RosterDecides(db, t);
    }
  }

  lemma TeamAlone(db: Db, t: Txn)
    requires DbInv(db) && TxnInv(db, t) && t.task.AddTeamMember? && !t.phase.Finished?
    requires t.phase.TeamRead? || t.phase.Guarding? || t.phase.Guarded? ==> InTeamOf(db, t.task, t.phase.org)
    requires t.phase.Guarding? ==> SeenRow(db, Key(t.task.user, t.phase.org), t.phase.birth)
    ensures var phase := TeamStatement(db, t).1;
      && (phase.TeamRead? || phase.Guarding? || phase.Guarded? ==> InTeamOf(db, t.task, phase.org))
      && (phase.Guarding? ==> SeenRow(db, Key(t.task.user, phase.org), phase.birth))
      && (phase.Finished? && phase.outcome != Done ==> phase.outcome == OutcomeOf(StoreOf(db), t.task))
      && (phase.TeamRead? || phase.Guarding? || phase.Guarded? || phase.Inserted? || phase.Finished?)
  {
  }

  lemma StatementMidway(db: Db, t: Txn)
    requires DbInv(db) && TxnInv(db, t) && Midway(db, db, t) && !t.phase.Finished?
    ensures var (now, phase) := Statement(db, t); Midway(db, now, t.(phase := phase))
  {
    hide StoreOf, OutcomeOf, Perform, TxnInv, DbInv;
    StatementActs(db, t);
    RefusedUnchanged(StoreOf(db), t.task);
    if t.task.AddTeamMember? {
      TeamAlone(db, t);
    } else {
      RosterAlone(db, t);
    }
  }

  lemma StillThere(db: Db, now: Db, t: Txn)
    requires Midway(db, now, t) && !t.phase.Finished?
    ensures now == db
  {
  }

  lemma StepAlone(db: Db, s: State, id: nat, task: Task)
    requires Alone(db, s, id, task) && !s.txns[id].phase.Finished?
    ensures var after := Apply(s, Advance(id));
      && id in after.txns && Alone(db, after, id, task)
      && WorkLeft(after.txns[id], |db.members|) < WorkLeft(s.txns[id], |db.members|)
  {
    hide Midway, Statement, TxnInv, DbInv, WorkLeft;
    var t := s.txns[id];
    assert !Blocked(s, id);
    StillThere(db, s.db, t);
    OwnStatement(db, t);
    StatementMidway(db, t);
    StatementLowersWork(db, t, |db.members|);
  }

  ghost function Advances(id: nat, n: nat): seq<Action>
  {
    if n == 0 then [] else [Advance(id)] + Advances(id, n - 1)
  }

  lemma {:induction false} RunAlone(db: Db, s: State, id: nat, task: Task, n: nat)
    requires Alone(db, s, id, task) && WorkLeft(s.txns[id], |db.members|) <= n
    ensures var end := Exec(s, Advances(id, n));
      id in end.txns && Alone(db, end, id, task) && end.txns[id].phase.Finished?
    decreases n
  {
    hide Apply, Midway, TxnInv, DbInv;
    if n > 0 {
      assert Advances(id, n)[0] == Advance(id) && Advances(id, n)[1..] == Advances(id, n - 1);
      if s.txns[id].phase.Finished? {
        FinishedStays(s, id);
      } else {
        StepAlone(db, s, id, task);
      }
      RunAlone(db, Apply(s, Advance(id)), id, task, n - 1);
    }
  }

  lemma FinishedStays(s: State, id: nat)
    requires id in s.txns && s.txns[id].phase.Finished?
    ensures Apply(s, Advance(id)) == s
  {
  }

  /**
   * A task that runs alone ends with the outcome of the in-memory operation and leaves the rows that
   * the operation leaves.
   */
  lemma AloneIsOperation(s: State, id: nat, task: Task, n: nat)
    requires Initial(s) && n >= |s.db.members| + 5
    ensures var end := Exec(s, [Begin(id, task)] + Advances(id, n));
      && id in end.txns && end.txns[id].phase == Finished(OutcomeOf(StoreOf(s.db), task))
      && StoreOf(end.db) == Perform(StoreOf(s.db), task).0
  {
    hide Alone, OutcomeOf, Perform, Apply, StoreOf, Exec;
    var begun := Apply(s, Begin(id, task));
    BegunAlone(s, id, task);
    RunAlone(s.db, begun, id, task, n);
    EndedAlone(s.db, Exec(begun, Advances(id, n)), id, task);
    FirstAction(s, Begin(id, task), Advances(id, n));
  }

  lemma FirstAction(s: State, a: Action, rest: seq<Action>)
    ensures Exec(s, [a] + rest) == Exec(Apply(s, a), rest)
  {
    assert ([a] + rest)[1..] == rest;
  }

  lemma BegunAlone(s: State, id: nat, task: Task)
    requires Initial(s)
    ensures var begun := Apply(s, Begin(id, task));
      id in begun.txns && Alone(s.db, begun, id, task) && begun.txns[id] == Txn(task, Started)
  {
  }

  lemma EndedAlone(db: Db, s: State, id: nat, task: Task)
    requires Alone(db, s, id, task) && s.txns[id].phase.Finished?
    ensures id in s.txns && s.txns[id].phase.outcome == OutcomeOf(StoreOf(db), task)
    ensures StoreOf(s.db) == Perform(StoreOf(db), task).0
  {
    hide OutcomeOf, Perform, StoreOf, TxnInv, DbInv;
  }

  // ----- Transactions of one statement -----

  lemma AddedMembership(s: State, user: nat, org: nat, role: Role)
    ensures StoreOf(Apply(s, AddMembership(user, org, role)).db)
         == Identity.AddMembership(StoreOf(s.db), user, org, role, s.db.births).0
  {
    var db, key := s.db, Key(user, org);
    hide MembershipsOf;
    if key !in db.members {
      MembershipsWith(db, db.(members := db.members[key := Row(role, db.births)], births := db.births + 1), key);
    }
  }

  lemma MembershipsWith(db: Db, after: Db, key: Key)
    requires key !in db.members && key in after.members && after.members == db.members[key := after.members[key]]
    ensures MembershipsOf(after) == MembershipsOf(db)[Identity.MemberKey(key.user, key.org) :=
      Identity.Membership(key.user, key.org, after.members[key].role, after.members[key].birth)]
  {
  }

  lemma RemovedTeamMember(s: State, team: nat, org: nat, user: nat)
    ensures StoreOf(Apply(s, RemoveTeamMember(team, org, user)).db)
         == Identity.RemoveTeamMember(StoreOf(s.db), org, team, user).0
  {
    var db := s.db;
    hide MembershipsOf, TeamMembersOf;
    TeamMembersWithout(db, db.(teamRows := db.teamRows - {TeamRow(team, user)}), {Identity.TeamKey(team, user)});
  }

  lemma TeamMembersWithout(db: Db, after: Db, gone: set<Identity.TeamKey>)
    requires forall r :: r in after.teamRows <==> r in db.teamRows && Identity.TeamKey(r.team, r.user) !in gone
    ensures TeamMembersOf(after) == TeamMembersOf(db) - gone
  {
    forall k ensures k in TeamMembersOf(after) <==> k in TeamMembersOf(db) && k !in gone {
      assert TeamRow(k.team, k.user) in after.teamRows <==> TeamRow(k.team, k.user) in db.teamRows && k !in gone;
    }
  }

  /** Unless an addition in progress holds the team. */
  lemma DeletedTeam(s: State, team: nat, org: nat)
    requires forall id | id in s.txns :: !HoldsTeam(s.txns[id], team)
    ensures StoreOf(Apply(s, DeleteTeam(team, org)).db) == Identity.DeleteTeam(StoreOf(s.db), org, team).0
  {
    hide MembershipsOf, TeamMembersOf, TeamsOf, HoldsTeam, Statement;
    var db, after := s.db, Apply(s, DeleteTeam(team, org)).db;
    if team in db.teams && db.teams[team] == org {
      TeamMembersWithout(db, after, Identity.TeamKeys(StoreOf(db), team));
    }
    TeamsWithout(db, after, team, org);
  }

  lemma TeamsWithout(db: Db, after: Db, team: nat, org: nat)
    requires after.teams == if team in db.teams && db.teams[team] == org then db.teams - {team} else db.teams
    ensures TeamsOf(after) == if team in db.teams && db.teams[team] == org then TeamsOf(db) - {team} else TeamsOf(db)
    ensures team in TeamsOf(db) <==> team in db.teams
    ensures team in db.teams ==> TeamsOf(db)[team] == Identity.Team(team, db.teams[team], "", 0)
  {
  }

  /** Names, and so the refusal of a taken one, are not part of the locking model. */
  lemma CreatedTeam(s: State, team: nat, org: nat)
    requires team !in s.db.teams && team !in s.db.retired
    ensures StoreOf(Apply(s, CreateTeam(team, org)).db)
         == StoreOf(s.db).(teams := Identity.CreateTeam(StoreOf(s.db), team, org, "", 0).0.teams)
  {
    hide MembershipsOf, TeamMembersOf;
    var after := Apply(s, CreateTeam(team, org)).db;
    assert TeamsOf(after) == TeamsOf(s.db)[team := Identity.Team(team, org, "", 0)];
    SameRows(s.db, after);
  }

  lemma SameRows(db: Db, after: Db)
    requires after.members == db.members && after.teamRows == db.teamRows
    ensures MembershipsOf(after) == MembershipsOf(db) && TeamMembersOf(after) == TeamMembersOf(db)
  {
  }

  // ----- Waiting and giving up -----

  /** Two additions never wait for each other: they share the membership row. */
  lemma SharersDoNotWait(s: State, a: nat, b: nat)
    requires a in s.txns && b in s.txns && s.txns[a].task.AddTeamMember? && s.txns[b].task.AddTeamMember?
    requires Inv(s)
    ensures !Waits(s, a, b)
  {
  }

  /** An aborted transaction changes no row, and nobody waits for it. */
  lemma AbortReleases(s: State, id: nat, other: nat)
    requires Unfinished(s, id)
    ensures var after := Apply(s, Abort(id));
      after.db == s.db && after.txns[id].phase == Finished(Aborted) && !Waits(after, other, id)
  {
  }
}
