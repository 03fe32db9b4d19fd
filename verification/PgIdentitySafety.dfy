/**
 * What every interleaving of the locking transactions keeps: team rows stay backed by
 * memberships, and an organization that has an owner never loses its last one.
 */
module PgIdentitySafety {
  import opened Wrappers
  import opened Roster
  import opened PgIdentity

  ghost predicate HasOwner(db: Db, org: nat)
  {
    exists k | k in db.members :: k.org == org && db.members[k].role == Owner
  }

  // ----- One statement -----

  lemma OwnStatement(db: Db, t: Txn)
    requires DbInv(db) && TxnInv(db, t)
    ensures var (after, phase) := Statement(db, t);
      DbInv(after) && TxnInv(after, t.(phase := phase))
  {
    var (after, phase) := Statement(db, t);
    if !t.task.AddTeamMember? {
      match t.phase
      case Started =>
        RosterSnapshot(db, t.task.org);
      case Locking(asOf, pending, roles) =>
        if pending != [] {
          LockStep(db, t);
        }
      case Written(roles, doomed) =>
        if t.task.Remove? {
          RemoveKeepsReferential(db, t);
        }
      case _ =>
    }
  }

  lemma RosterSnapshot(db: Db, org: nat)
    requires DbInv(db)
    ensures RosterInv(db, Txn(Remove(0, org), Locking(db.births, RosterRows(db, org), [])))
  {
    var rows := RosterRows(db, org);
    forall x ensures x in rows <==> SeenRow(db, Key(x.user, org), x.birth) {
      RosterRowsExact(db, org, x);
    }
    forall k | k in db.members && k.org == org ensures Seen(k.user, db.members[k].birth) in rows {
      assert SeenRow(db, Key(k.user, org), db.members[k].birth);
    }
  }

  /** A row of the snapshot is listed or pending also after the next row has been locked or skipped. */
  lemma StillCovered(db: Db, t: Txn, k: Key)
    requires TxnInv(db, t) && !t.task.AddTeamMember? && t.phase.Locking? && t.phase.pending != []
    requires k in db.members && k.org == t.task.org && db.members[k].birth < t.phase.asOf
    ensures var next := RosterStatement(db, t).1;
      next.Locking? && (Lists(next.roles, k.user) || Seen(k.user, db.members[k].birth) in next.pending)
  {
    var head, next := t.phase.pending[0], RosterStatement(db, t).1;
    assert t.phase.pending == [head] + t.phase.pending[1..];
    if Lists(t.phase.roles, k.user) {
      var e :| e in t.phase.roles && e.user == k.user;
      assert e in next.roles;
    } else if Seen(k.user, db.members[k].birth) == head {
      assert k == Key(head.user, t.task.org);
      assert Entry(k.user, db.members[k].role) in next.roles;
    }
  }

  lemma LockStep(db: Db, t: Txn)
    requires DbInv(db) && TxnInv(db, t) && !t.task.AddTeamMember? && t.phase.Locking? && t.phase.pending != []
    ensures TxnInv(db, t.(phase := RosterStatement(db, t).1))
  {
    hide Lists, DbInv;
    var next := RosterStatement(db, t).1;
    forall k | k in db.members && k.org == t.task.org && db.members[k].birth < t.phase.asOf
      ensures Lists(next.roles, k.user) || Seen(k.user, db.members[k].birth) in next.pending
    {
      StillCovered(db, t, k);
    }
  }

  lemma RemoveKeepsReferential(db: Db, t: Txn)
    requires DbInv(db) && TxnInv(db, t) && t.task.Remove? && t.phase.Written?
    ensures DbInv(RosterStatement(db, t).0)
  {
    var after := RosterStatement(db, t).0;
    forall r | r in after.teamRows ensures r.team in after.teams && Key(r.user, after.teams[r.team]) in after.members {
      assert r !in TeamRowsOf(db, t.task.user, t.task.org);
    }
  }

  /** A statement of `t` leaves intact what every lock-compatible transaction relies on. */
  lemma OtherStatement(db: Db, t: Txn, u: Txn)
    requires DbInv(db) && TxnInv(db, t) && TxnInv(db, u) && Compatible(t, u) && Compatible(u, t)
    ensures TxnInv(Statement(db, t).0, u)
  {
    var after := Statement(db, t).0;
    if t.task.AddTeamMember? {
      if t.phase.Inserted? && u.task.Remove? && u.phase.Written? {
        var k := Key(t.task.user, t.phase.org);
        assert HoldsShare(t, k);
        assert !HoldsUpdate(u, k);
        assert TeamRowsOf(after, u.task.user, u.task.org) <= TeamRowsOf(db, u.task.user, u.task.org);
      }
    } else if t.phase.Written? {
      var key := Key(t.task.user, t.task.org);
      assert HoldsUpdate(t, key);
      OtherCommit(db, after, key, u);
    }
  }

  /** A committed change of one membership row, with team rows only removed. */
  lemma OtherCommit(db: Db, after: Db, key: Key, u: Txn)
    requires TxnInv(db, u) && !HoldsUpdate(u, key) && !HoldsShare(u, key)
    requires after.births == db.births && after.teams == db.teams && after.retired == db.retired
    requires after.teamRows <= db.teamRows
    requires forall k | k != key :: k in after.members <==> k in db.members
    requires forall k | k != key && k in db.members :: after.members[k] == db.members[k]
    requires key in after.members ==> key in db.members && after.members[key].birth == db.members[key].birth
    ensures TxnInv(after, u)
  {
    if u.task.AddTeamMember? {
      if u.phase.Guarded? || u.phase.Inserted? {
        assert HoldsShare(u, Key(u.task.user, u.phase.org));
      }
    } else if u.phase.Locking? || u.phase.Decided? || u.phase.Written? {
      forall e | e in u.phase.roles ensures Key(e.user, u.task.org) != key {
        if Key(e.user, u.task.org) == key {
          assert HoldsUpdate(u, key);
        }
      }
      assert TeamRowsOf(after, u.task.user, u.task.org) <= TeamRowsOf(db, u.task.user, u.task.org);
    }
  }

  /** A transaction that waits for nobody may take the lock it asks for. */
  lemma LocksStayCompatible(s: State, id: nat, other: nat)
    requires Inv(s) && id in s.txns && other in s.txns && id != other && !Blocked(s, id)
    ensures var t := s.txns[id]; var next := t.(phase := Statement(s.db, t).1);
      Compatible(next, s.txns[other]) && Compatible(s.txns[other], next)
  {
    var t, u := s.txns[id], s.txns[other];
    var next := t.(phase := Statement(s.db, t).1);
    assert !Waits(s, id, other);
    forall k | HoldsUpdate(next, k) && !HoldsUpdate(t, k)
      ensures !HoldsUpdate(u, k) && !HoldsShare(u, k)
    {
      assert t.phase.Locking? && Wanted(s.db, t) == Some(k);
    }
    forall k | HoldsShare(next, k) && !HoldsShare(t, k) ensures !HoldsUpdate(u, k) {
      assert t.phase.Guarding? && Wanted(s.db, t) == Some(k);
    }
  }

  lemma AdvanceKeepsInv(s: State, id: nat)
    requires Inv(s)
    ensures Inv(Apply(s, Advance(id)))
  {
    if id in s.txns && !Blocked(s, id) {
      var t := s.txns[id];
      OwnStatement(s.db, t);
      forall other | other in s.txns && other != id
        ensures TxnInv(Statement(s.db, t).0, s.txns[other])
        ensures var next := t.(phase := Statement(s.db, t).1);
          Compatible(next, s.txns[other]) && Compatible(s.txns[other], next)
      {
        OtherStatement(s.db, t, s.txns[other]);
        LocksStayCompatible(s, id, other);
      }
    }
  }

  // ----- Actions from outside the transactions -----

  lemma AddMembershipKeepsInv(s: State, user: nat, org: nat, role: Role)
    requires Inv(s)
    ensures Inv(Apply(s, AddMembership(user, org, role)))
  {
    var after := Apply(s, AddMembership(user, org, role)).db;
    forall id | id in s.txns ensures TxnInv(after, s.txns[id]) {
      var t := s.txns[id];
      assert TeamRowsOf(after, t.task.user, org) == TeamRowsOf(s.db, t.task.user, org);
      assert !t.task.AddTeamMember? ==>
        TeamRowsOf(after, t.task.user, t.task.org) == TeamRowsOf(s.db, t.task.user, t.task.org);
    }
  }

  lemma CreateTeamKeepsInv(s: State, team: nat, org: nat)
    requires Inv(s)
    ensures Inv(Apply(s, CreateTeam(team, org)))
  {
    var after := Apply(s, CreateTeam(team, org)).db;
    forall id | id in s.txns ensures TxnInv(after, s.txns[id]) {
      var t := s.txns[id];
      if !t.task.AddTeamMember? {
        assert TeamRowsOf(after, t.task.user, t.task.org) == TeamRowsOf(s.db, t.task.user, t.task.org);
      }
    }
  }

  lemma DropTeamRowsKeepsInv(s: State, a: Action)
    requires Inv(s) && (a.DeleteTeam? || a.RemoveTeamMember?)
    ensures Inv(Apply(s, a))
  {
    var after := Apply(s, a).db;
    forall id | id in s.txns ensures TxnInv(after, s.txns[id]) {
      var t := s.txns[id];
      if t.task.AddTeamMember? {
        assert t.phase.Inserted? ==> HoldsTeam(t, t.task.team);
      } else {
        assert TeamRowsOf(after, t.task.user, t.task.org) <= TeamRowsOf(s.db, t.task.user, t.task.org);
      }
    }
  }

  lemma PhaseKeepsInv(s: State, a: Action)
    requires Inv(s) && (a.Begin? || a.Abort?)
    ensures Inv(Apply(s, a))
  {
    hide Statement;
    var after := Apply(s, a);
    forall id | id in after.txns ensures TxnInv(after.db, after.txns[id]) {
    }
    forall x, y | x in after.txns && y in after.txns && x != y ensures Compatible(after.txns[x], after.txns[y]) {
    }
  }

  lemma StepKeepsInv(s: State, a: Action)
    requires Inv(s)
    ensures Inv(Apply(s, a))
  {
    hide Inv, Apply;
    match a
    case Begin(_, _) => PhaseKeepsInv(s, a);
    case Advance(id) => AdvanceKeepsInv(s, id);
    case Abort(_) => PhaseKeepsInv(s, a);
    case AddMembership(user, org, role) => AddMembershipKeepsInv(s, user, org, role);
    case CreateTeam(team, org) => CreateTeamKeepsInv(s, team, org);
    case DeleteTeam(_, _) => DropTeamRowsKeepsInv(s, a);
    case RemoveTeamMember(_, _, _) => DropTeamRowsKeepsInv(s, a);
  }

  // ----- Runs -----

  lemma {:induction false} RunKeepsInv(s: State, actions: seq<Action>)
    requires Inv(s)
    ensures Inv(Exec(s, actions))
    decreases |actions|
  {
    if actions != [] {
      StepKeepsInv(s, actions[0]);
      RunKeepsInv(Apply(s, actions[0]), actions[1..]);
    }
  }

  lemma {:induction false} ExecConcat(s: State, a: seq<Action>, b: seq<Action>)
    ensures Exec(s, a + b) == Exec(Exec(s, a), b)
    decreases |a|
  {
    if a == [] {
      assert a + b == b;
    } else {
      assert (a + b)[1..] == a[1..] + b;
      ExecConcat(Apply(s, a[0]), a[1..], b);
    }
  }

  /** Under every interleaving each committed team row has its committed membership. */
  lemma TeamRowsBacked(s: State, actions: seq<Action>)
    requires Initial(s)
    ensures Referential(Exec(s, actions).db)
  {
    RunKeepsInv(s, actions);
  }

  // ----- The last owner -----

  lemma StepKeepsOwner(s: State, a: Action, org: nat)
    requires Inv(s) && HasOwner(s.db, org)
    ensures HasOwner(Apply(s, a).db, org)
  {
    var k :| k in s.db.members && k.org == org && s.db.members[k].role == Owner;
    var after := Apply(s, a).db;
    if !(k in after.members && after.members[k].role == Owner) {
      assert a.Advance?;
      var t := s.txns[a.id];
      assert !t.task.AddTeamMember? && t.phase.Written? && k == Key(t.task.user, t.task.org);
      CommitKeepsOwner(s.db, t);
    }
  }

  /** The locked roster speaks for the rows it lists: another listed owner stays. */
  lemma CommitKeepsOwner(db: Db, t: Txn)
    requires TxnInv(db, t) && !t.task.AddTeamMember? && t.phase.Written?
    requires Key(t.task.user, t.task.org) in db.members && db.members[Key(t.task.user, t.task.org)].role == Owner
    ensures HasOwner(RosterStatement(db, t).0, t.task.org)
  {
    var roles, user, org := t.phase.roles, t.task.user, t.task.org;
    var after := RosterStatement(db, t).0;
    var mine :| mine in roles && mine.user == user;
    assert AnyOwner(roles);
    if OthersOwn(roles, user) {
      var e :| e in roles && e.user != user && e.role == Owner;
      assert Key(e.user, org) in after.members && after.members[Key(e.user, org)].role == Owner;
    } else {
      assert Key(user, org) in after.members && after.members[Key(user, org)].role == Owner;
    }
  }

  lemma {:induction false} RunKeepsOwner(s: State, actions: seq<Action>, org: nat)
    requires Inv(s) && HasOwner(s.db, org)
    ensures HasOwner(Exec(s, actions).db, org)
    decreases |actions|
  {
    if actions != [] {
      StepKeepsInv(s, actions[0]);
      StepKeepsOwner(s, actions[0], org);
      RunKeepsOwner(Apply(s, actions[0]), actions[1..], org);
    }
  }

  /** Once an organization has a committed owner, it has one ever after. */
  lemma OwnerForever(s: State, actions: seq<Action>, more: seq<Action>, org: nat)
    requires Initial(s) && HasOwner(Exec(s, actions).db, org)
    ensures HasOwner(Exec(s, actions + more).db, org)
  {
    RunKeepsInv(s, actions);
    RunKeepsOwner(Exec(s, actions), more, org);
    ExecConcat(s, actions, more);
  }

  // ----- The roster a decision is taken on -----

  /** Rows that are listed are committed rows of the snapshot, and all of them once none is pending. */
  lemma ListedIsCommitted(db: Db, t: Txn, e: Entry)
    requires TxnInv(db, t) && !t.task.AddTeamMember? && t.phase.Locking? && t.phase.pending == []
    ensures var k := Key(e.user, t.task.org);
      e in t.phase.roles <==>
        (k in db.members && db.members[k].role == e.role && db.members[k].birth < t.phase.asOf)
  {
    var k := Key(e.user, t.task.org);
    if k in db.members && db.members[k].role == e.role && db.members[k].birth < t.phase.asOf {
      var f :| f in t.phase.roles && f.user == k.user;
      assert f == e;
    }
  }

  /**
   * When the decision is taken, the locked roster is exactly the committed roster of the
   * organization, less the memberships inserted after the snapshot.
   */
  lemma DecisionOnCommittedRoster(s: State, actions: seq<Action>, id: nat, e: Entry)
    requires Initial(s)
    requires var now := Exec(s, actions);
      id in now.txns && !now.txns[id].task.AddTeamMember?
      && now.txns[id].phase.Locking? && now.txns[id].phase.pending == []
    ensures var now := Exec(s, actions); var t := now.txns[id]; var k := Key(e.user, t.task.org);
      e in t.phase.roles <==>
        (k in now.db.members && now.db.members[k].role == e.role && now.db.members[k].birth < t.phase.asOf)
  {
    RunKeepsInv(s, actions);
    ListedIsCommitted(Exec(s, actions).db, Exec(s, actions).txns[id], e);
  }
}
