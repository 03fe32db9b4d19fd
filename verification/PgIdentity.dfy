/**
 * The locking transactions of the Postgres identity store as a state machine.
 *
 * A state is the committed database plus the transactions in progress; an action lets one
 * transaction execute its next statement, or commits a one-statement transaction.  What
 * is assumed of the database at READ COMMITTED: writes show at commit; a statement sees
 * the rows committed when it began; a locking read that meets a row lock waits for it,
 * then re-reads the row and skips it if it was deleted meanwhile, even when a new row has
 * been inserted under the same key; locks are held to the end of the transaction.
 */
module PgIdentity {
  import opened Wrappers
  import opened Roster

  datatype Key = Key(user: nat, org: nat)

  /** `birth` tells a row from a later row inserted under the same key. */
  datatype Row = Row(role: Role, birth: nat)

  datatype TeamRow = TeamRow(team: nat, user: nat)

  /** `retired` holds the identifiers of deleted teams, which are never used again. */
  datatype Db = Db(members: map<Key, Row>, births: nat,
                   teams: map<nat, nat>, retired: set<nat>, teamRows: set<TeamRow>)

  datatype Task =
    | ChangeRole(user: nat, org: nat, role: Role)
    | Remove(user: nat, org: nat)
    | AddTeamMember(team: nat, user: nat)

  datatype Outcome = Done | NotFound | LastOwner | NoTeam | OrgMismatch | Aborted

  /** A roster row as the statement's snapshot saw it. */
  datatype Seen = Seen(user: nat, birth: nat)

  datatype Phase =
    | Started
    | Locking(asOf: nat, pending: seq<Seen>, roles: seq<Entry>)
    | Decided(roles: seq<Entry>)
    | Written(roles: seq<Entry>, doomed: set<TeamRow>)
    | TeamRead(org: nat)
    | Guarding(org: nat, birth: nat)
    | Guarded(org: nat)
    | Inserted(org: nat)
    | Finished(outcome: Outcome)

  datatype Txn = Txn(task: Task, phase: Phase)

  datatype State = State(db: Db, txns: map<nat, Txn>)

  datatype Action =
    | Begin(id: nat, task: Task)
    | Advance(id: nat)
    | Abort(id: nat)
    | AddMembership(user: nat, org: nat, role: Role)
    | CreateTeam(team: nat, org: nat)
    | DeleteTeam(team: nat, org: nat)
    | RemoveTeamMember(team: nat, org: nat, user: nat)

  // ----- Locks, read off the phases -----

  predicate HoldsUpdate(t: Txn, k: Key)
  {
    && (t.phase.Locking? || t.phase.Decided? || t.phase.Written?)
    && !t.task.AddTeamMember?
    && k.org == t.task.org
    && exists e | e in t.phase.roles :: e.user == k.user
  }

  predicate HoldsShare(t: Txn, k: Key)
  {
    (t.phase.Guarded? || t.phase.Inserted?) && k == Key(t.task.user, t.phase.org)
  }

  predicate HoldsTeam(t: Txn, team: nat)
  {
    t.phase.Inserted? && t.task.AddTeamMember? && t.task.team == team
  }

  predicate SeenRow(db: Db, k: Key, birth: nat)
  {
    k in db.members && db.members[k].birth == birth
  }

  /** The row lock `t` asks for next, if the row it saw is still there. */
  function Wanted(db: Db, t: Txn): Option<Key>
  {
    match t.phase
    case Locking(_, pending, _) =>
      if pending != [] && !t.task.AddTeamMember?
         && SeenRow(db, Key(pending[0].user, t.task.org), pending[0].birth)
      then Some(Key(pending[0].user, t.task.org)) else None
    case Guarding(org, birth) =>
      if SeenRow(db, Key(t.task.user, org), birth) then Some(Key(t.task.user, org)) else None
    case _ => None
  }

  /** `a` waits for `b`: it asks for a row lock that conflicts with one `b` holds. */
  predicate Waits(s: State, a: nat, b: nat)
  {
    && a in s.txns && b in s.txns && a != b
    && var want := Wanted(s.db, s.txns[a]);
       want.Some? && (HoldsUpdate(s.txns[b], want.value)
                      || (s.txns[a].phase.Locking? && HoldsShare(s.txns[b], want.value)))
  }

  predicate Blocked(s: State, a: nat)
  {
    exists b | b in s.txns :: Waits(s, a, b)
  }

  // ----- Snapshots in user order -----

  ghost function Least(us: set<nat>): (m: nat)
    requires us != {}
    ensures m in us && forall u | u in us :: m <= u
  {
    var u :| u in us;
    if us == {u} then u
    else
      var m := Least(us - {u});
      assert forall v | v in us :: v == u || v in us - {u};
      if u < m then u else m
  }

  ghost function Sorted(us: set<nat>): (r: seq<nat>)
    ensures forall u :: u in r <==> u in us
    ensures forall i, j | 0 <= i < j < |r| :: r[i] < r[j]
  {
    if us == {} then []
    else
      var m := Least(us);
      [m] + Sorted(us - {m})
  }

  ghost function MemberUsers(db: Db, org: nat): set<nat>
  {
    set k | k in db.members && k.org == org :: k.user
  }

  ghost function RosterRows(db: Db, org: nat): (r: seq<Seen>)
    ensures forall i, j | 0 <= i < j < |r| :: r[i].user < r[j].user
  {
    var users := Sorted(MemberUsers(db, org));
    assert forall i | 0 <= i < |users| :: users[i] in MemberUsers(db, org);
    seq(|users|, i requires 0 <= i < |users| => Seen(users[i], db.members[Key(users[i], org)].birth))
  }

  lemma RosterRowsExact(db: Db, org: nat, x: Seen)
    ensures x in RosterRows(db, org) <==> SeenRow(db, Key(x.user, org), x.birth)
  {
    var users, rows := Sorted(MemberUsers(db, org)), RosterRows(db, org);
    if x in rows {
      var i :| 0 <= i < |rows| && rows[i] == x;
      assert users[i] in MemberUsers(db, org);
    }
    if SeenRow(db, Key(x.user, org), x.birth) {
      assert x.user in MemberUsers(db, org);
      var i :| 0 <= i < |users| && users[i] == x.user;
      assert rows[i] == x;
    }
  }

  // ----- Statements -----

  function NewRole(task: Task): Option<Role>
  {
    if task.ChangeRole? then Some(task.role) else None
  }

  predicate Lists(roles: seq<Entry>, user: nat)
  {
    exists e | e in roles :: e.user == user
  }

  function TeamRowsOf(db: Db, user: nat, org: nat): set<TeamRow>
  {
    set r | r in db.teamRows && r.user == user && r.team in db.teams && db.teams[r.team] == org
  }

  /** The next statement of a role change or a removal. */
  ghost function RosterStatement(db: Db, t: Txn): (Db, Phase)
    requires !t.task.AddTeamMember?
  {
    var key := Key(t.task.user, t.task.org);
    match t.phase
    case Started => (db, Locking(db.births, RosterRows(db, t.task.org), []))
    case Locking(asOf, pending, roles) =>
      if pending == [] then
        if !Lists(roles, t.task.user) then (db, Finished(NotFound))
        else if OrphansOwner(roles, t.task.user, NewRole(t.task)) then (db, Finished(LastOwner))
        else (db, Decided(roles))
      else
        var k := Key(pending[0].user, t.task.org);
        if SeenRow(db, k, pending[0].birth)
        then (db, Locking(asOf, pending[1..], roles + [Entry(k.user, db.members[k].role)]))
        else (db, Locking(asOf, pending[1..], roles))
    case Decided(roles) =>
      (db, Written(roles, if t.task.Remove? then TeamRowsOf(db, t.task.user, t.task.org) else {}))
    case Written(_, doomed) =>
      if key !in db.members then (db, Finished(Done))
      else if t.task.Remove? then
        (db.(members := db.members - {key}, teamRows := db.teamRows - doomed), Finished(Done))
      else
        (db.(members := db.members[key := db.members[key].(role := t.task.role)]), Finished(Done))
    case _ => (db, t.phase)
  }

  /** The next statement of an `add_team_member`. */
  function TeamStatement(db: Db, t: Txn): (Db, Phase)
    requires t.task.AddTeamMember?
  {
    match t.phase
    case Started =>
      (db, if t.task.team in db.teams then TeamRead(db.teams[t.task.team]) else Finished(NoTeam))
    case TeamRead(org) =>
      var k := Key(t.task.user, org);
      (db, if k in db.members then Guarding(org, db.members[k].birth) else Finished(OrgMismatch))
    case Guarding(org, birth) =>
      (db, if SeenRow(db, Key(t.task.user, org), birth) then Guarded(org) else Finished(OrgMismatch))
    case Guarded(org) =>
      (db, if t.task.team in db.teams then Inserted(org) else Finished(Aborted))
    case Inserted(_) =>
      (db.(teamRows := db.teamRows + {TeamRow(t.task.team, t.task.user)}), Finished(Done))
    case _ => (db, t.phase)
  }

  ghost function Statement(db: Db, t: Txn): (Db, Phase)
  {
    if t.task.AddTeamMember? then TeamStatement(db, t) else RosterStatement(db, t)
  }

  ghost function Apply(s: State, a: Action): State
  {
    var db := s.db;
    match a
    case Begin(id, task) =>
      if id in s.txns then s else s.(txns := s.txns[id := Txn(task, Started)])
    case Advance(id) =>
      if id !in s.txns || Blocked(s, id) then s
      else
        var (after, phase) := Statement(db, s.txns[id]);
        State(after, s.txns[id := s.txns[id].(phase := phase)])
    case Abort(id) =>
      if id !in s.txns || s.txns[id].phase.Finished? then s
      else s.(txns := s.txns[id := s.txns[id].(phase := Finished(Aborted))])
    case AddMembership(user, org, role) =>
      if Key(user, org) in db.members then s
      else s.(db := db.(members := db.members[Key(user, org) := Row(role, db.births)], births := db.births + 1))
    case CreateTeam(team, org) =>
      if team in db.teams || team in db.retired then s
      else s.(db := db.(teams := db.teams[team := org]))
    case DeleteTeam(team, org) =>
      if team !in db.teams || db.teams[team] != org
         || (exists id | id in s.txns :: HoldsTeam(s.txns[id], team)) then s
      else
        s.(db := db.(teams := db.teams - {team}, retired := db.retired + {team},
                     teamRows := set r | r in db.teamRows && r.team != team))
    case RemoveTeamMember(team, org, user) =>
      if team !in db.teams || db.teams[team] != org then s
      else s.(db := db.(teamRows := db.teamRows - {TeamRow(team, user)}))
  }

  ghost function Exec(s: State, actions: seq<Action>): State
    decreases |actions|
  {
    if actions == [] then s else Exec(Apply(s, actions[0]), actions[1..])
  }

  // ----- The invariant -----

  /** Every team row belongs to a live team whose organization the user is a member of. */
  ghost predicate Referential(db: Db)
  {
    forall r | r in db.teamRows ::
      r.team in db.teams && Key(r.user, db.teams[r.team]) in db.members
  }

  ghost predicate DbInv(db: Db)
  {
    && Referential(db)
    && (forall k | k in db.members :: db.members[k].birth < db.births)
    && (forall team | team in db.teams :: team !in db.retired)
  }

  /** Locked roster rows are as read, and rows the snapshot saw are locked or still pending. */
  ghost predicate RosterInv(db: Db, t: Txn)
    requires !t.task.AddTeamMember?
  {
    var org := t.task.org;
    match t.phase
    case Locking(asOf, pending, roles) =>
      && Locked(db, org, roles)
      && asOf <= db.births
      && (forall e | e in roles :: db.members[Key(e.user, org)].birth < asOf)
      && (forall x | x in pending :: x.birth < asOf)
      && (forall e, x | e in roles && x in pending :: e.user < x.user)
      && (forall i, j | 0 <= i < j < |pending| :: pending[i].user < pending[j].user)
      && (forall k | k in db.members && k.org == org && db.members[k].birth < asOf ::
            Lists(roles, k.user) || Seen(k.user, db.members[k].birth) in pending)
    case Decided(roles) =>
      Locked(db, org, roles) && Lists(roles, t.task.user) && !OrphansOwner(roles, t.task.user, NewRole(t.task))
    case Written(roles, doomed) =>
      && Locked(db, org, roles) && Lists(roles, t.task.user) && !OrphansOwner(roles, t.task.user, NewRole(t.task))
      && (t.task.Remove? ==> TeamRowsOf(db, t.task.user, org) <= doomed)
      && forall r | r in doomed :: r.user == t.task.user && TeamIn(db, r.team, org)
    case Started => true
    case Finished(_) => true
    case _ => false
  }

  ghost predicate Locked(db: Db, org: nat, roles: seq<Entry>)
  {
    forall e | e in roles :: Key(e.user, org) in db.members && db.members[Key(e.user, org)].role == e.role
  }

  /** The team read is still in its organization or gone, and a guarded membership is there. */
  ghost predicate TeamInv(db: Db, t: Txn)
    requires t.task.AddTeamMember?
  {
    match t.phase
    case Started => true
    case Finished(_) => true
    case TeamRead(org) => TeamIn(db, t.task.team, org)
    case Guarding(org, _) => TeamIn(db, t.task.team, org)
    case Guarded(org) => TeamIn(db, t.task.team, org) && Key(t.task.user, org) in db.members
    case Inserted(org) =>
      t.task.team in db.teams && TeamIn(db, t.task.team, org) && Key(t.task.user, org) in db.members
    case _ => false
  }

  ghost predicate TeamIn(db: Db, team: nat, org: nat)
  {
    if team in db.teams then db.teams[team] == org else team in db.retired
  }

  ghost predicate TxnInv(db: Db, t: Txn)
  {
    if t.task.AddTeamMember? then TeamInv(db, t) else RosterInv(db, t)
  }

  /** No row is locked for update by one transaction and locked at all by another. */
  ghost predicate Compatible(t: Txn, u: Txn)
  {
    forall k | HoldsUpdate(t, k) :: !HoldsUpdate(u, k) && !HoldsShare(u, k)
  }

  ghost predicate Inv(s: State)
  {
    && DbInv(s.db)
    && (forall id | id in s.txns :: TxnInv(s.db, s.txns[id]))
    && (forall a, b | a in s.txns && b in s.txns && a != b :: Compatible(s.txns[a], s.txns[b]))
  }

  /** No transaction in progress, and a consistent database. */
  ghost predicate Initial(s: State)
  {
    s.txns == map[] && DbInv(s.db)
  }
}
