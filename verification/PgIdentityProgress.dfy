/**
 * Freedom from deadlock: roster rows are locked in ascending user order, so waits never
 * form a cycle, some unfinished transaction can always execute its next statement, and
 * every state can be driven to one where all transactions have finished.
 */
module PgIdentityProgress {
  import opened Arithmetic
  import opened PgIdentity
  import opened PgIdentitySafety

  /** A chain of waits: each transaction waits for the next. */
  ghost predicate Chain(s: State, p: seq<nat>)
  {
    |p| >= 2 && forall i | 0 <= i < |p| - 1 :: Waits(s, p[i], p[i + 1])
  }

  ghost function Awaited(s: State, id: nat): nat
    requires id in s.txns && Wanted(s.db, s.txns[id]).Some?
  {
    Wanted(s.db, s.txns[id]).value.user
  }

  /** Whoever is waited for and waits in turn, waits for a later user of the same roster. */
  lemma WaitsAscend(s: State, a: nat, b: nat, c: nat)
    requires Inv(s) && Waits(s, a, b) && Waits(s, b, c)
    ensures Awaited(s, a) < Awaited(s, b)
  {
    var k := Wanted(s.db, s.txns[a]).value;
    var t := s.txns[b];
    assert t.phase.Locking? && HoldsUpdate(t, k);
    var e :| e in t.phase.roles && e.user == k.user;
    assert t.phase.pending[0] in t.phase.pending;
  }

  lemma {:induction false} ChainAscends(s: State, p: seq<nat>, j: nat)
    requires Inv(s) && Chain(s, p) && 0 < j < |p| - 1
    requires Waits(s, p[0], p[1]) && Waits(s, p[j], p[j + 1])
    ensures Awaited(s, p[0]) < Awaited(s, p[j])
  {
    WaitsAscend(s, p[j - 1], p[j], p[j + 1]);
    if j > 1 {
      ChainAscends(s, p, j - 1);
    }
  }

  /** No reachable state has a cycle of waits, among any number of transactions. */
  lemma NoWaitCycle(s: State, actions: seq<Action>, p: seq<nat>)
    requires Initial(s) && Chain(Exec(s, actions), p)
    ensures p[0] != p[|p| - 1]
  {
    RunKeepsInv(s, actions);
    var now, n := Exec(s, actions), |p| - 1;
    if p[0] == p[n] && n > 1 {
      WaitsAscend(now, p[n - 1], p[0], p[1]);
      ChainAscends(now, p, n - 1);
    }
  }

  // ----- Progress -----

  ghost predicate Unfinished(s: State, id: nat)
  {
    id in s.txns && !s.txns[id].phase.Finished?
  }

  ghost function UnfinishedIds(s: State): set<nat>
  {
    set id | id in s.txns && !s.txns[id].phase.Finished?
  }

  /** Among waiting transactions, the one that waits for the greatest user. */
  lemma {:induction false} LastInLine(s: State, ids: set<nat>) returns (last: nat)
    requires ids != {} && forall id | id in ids :: id in s.txns && Wanted(s.db, s.txns[id]).Some?
    ensures last in ids && forall id | id in ids :: Awaited(s, id) <= Awaited(s, last)
    decreases ids
  {
    var id :| id in ids;
    if ids == {id} {
      last := id;
    } else {
      last := LastInLine(s, ids - {id});
      if Awaited(s, last) < Awaited(s, id) {
        last := id;
      }
      assert forall x | x in ids :: x == id || x in ids - {id};
    }
  }

  lemma SomeoneRuns(s: State) returns (free: nat)
    requires Inv(s) && UnfinishedIds(s) != {}
    ensures free in UnfinishedIds(s) && !Blocked(s, free)
  {
    hide Inv;
    var ids := UnfinishedIds(s);
    if id :| id in ids && !Blocked(s, id) {
      free := id;
    } else {
      forall id | id in ids ensures Wanted(s.db, s.txns[id]).Some? {
        var b :| b in s.txns && Waits(s, id, b);
      }
      var last := LastInLine(s, ids);
      var b :| b in s.txns && Waits(s, last, b);
      assert b in ids;
      var c :| c in s.txns && Waits(s, b, c);
      WaitsAscend(s, last, b, c);
      assert false;
    }
  }

  /** While any transaction is unfinished, one of them can execute a statement. */
  lemma SomeTransactionCanStep(s: State, actions: seq<Action>)
    requires Initial(s) && exists id :: Unfinished(Exec(s, actions), id)
    ensures var now := Exec(s, actions);
      exists id :: Unfinished(now, id) && !Blocked(now, id) && Apply(now, Advance(id)) != now
  {
    RunKeepsInv(s, actions);
    var now := Exec(s, actions);
    var id :| Unfinished(now, id);
    assert id in UnfinishedIds(now);
    var free := SomeoneRuns(now);
    AdvanceLowersWork(now, free);
  }

  // ----- Every state can be driven to completion -----

  /** Statements a transaction still has to execute, when the roster has at most `n` rows. */
  ghost function WorkLeft(t: Txn, n: nat): nat
  {
    match t.phase
    case Started => n + 5
    case Locking(_, pending, _) => |pending| + 4
    case Decided(_) => 3
    case Written(_, _) => 1
    case TeamRead(_) => 4
    case Guarding(_, _) => 3
    case Guarded(_) => 2
    case Inserted(_) => 1
    case Finished(_) => 0
  }

  ghost function Total(txns: map<nat, Txn>, ids: set<nat>, n: nat): nat
    requires ids <= txns.Keys
  {
    if ids == {} then 0
    else
      var id := Least(ids);
      WorkLeft(txns[id], n) + Total(txns, ids - {id}, n)
  }

  lemma {:induction false} TotalDrops(txns: map<nat, Txn>, after: map<nat, Txn>, ids: set<nat>, n: nat, id: nat)
    requires ids <= txns.Keys && ids <= after.Keys && id in ids
    requires forall x | x in ids && x != id :: after[x] == txns[x]
    requires WorkLeft(after[id], n) < WorkLeft(txns[id], n)
    ensures Total(after, ids, n) < Total(txns, ids, n)
    decreases ids
  {
    var least := Least(ids);
    if least == id {
      TotalSame(txns, after, ids - {id}, n);
    } else {
      TotalDrops(txns, after, ids - {least}, n, id);
    }
  }

  lemma {:induction false} TotalSame(txns: map<nat, Txn>, after: map<nat, Txn>, ids: set<nat>, n: nat)
    requires ids <= txns.Keys && ids <= after.Keys && forall x | x in ids :: after[x] == txns[x]
    ensures Total(after, ids, n) == Total(txns, ids, n)
    decreases ids
  {
    if ids != {} {
      TotalSame(txns, after, ids - {Least(ids)}, n);
    }
  }

  lemma {:induction false} SortedLength(us: set<nat>)
    ensures |Sorted(us)| == |us|
    decreases us
  {
    if us != {} {
      SortedLength(us - {Least(us)});
    }
  }

  lemma {:induction false} UsersBounded(db: Db, keys: set<Key>, org: nat)
    requires keys <= db.members.Keys
    ensures |set k | k in keys && k.org == org :: k.user| <= |keys|
    decreases keys
  {
    if keys != {} {
      var k :| k in keys;
      UsersBounded(db, keys - {k}, org);
      var smaller := set x | x in keys - {k} && x.org == org :: x.user;
      var all := set x | x in keys && x.org == org :: x.user;
      assert all <= smaller + {k.user};
      assert |smaller + {k.user}| <= |smaller| + 1;
      SubsetSize(all, smaller + {k.user});
    }
  }

  lemma RosterBounded(db: Db, org: nat)
    ensures |RosterRows(db, org)| <= |db.members|
  {
    SortedLength(MemberUsers(db, org));
    UsersBounded(db, db.members.Keys, org);
    assert MemberUsers(db, org) == set k | k in db.members.Keys && k.org == org :: k.user;
  }

  lemma StatementLowersWork(db: Db, t: Txn, n: nat)
    requires TxnInv(db, t) && !t.phase.Finished? && |db.members| <= n
    ensures WorkLeft(t.(phase := Statement(db, t).1), n) < WorkLeft(t, n)
    ensures |Statement(db, t).0.members| <= n
  {
    if t.task.AddTeamMember? {
      TeamStatementLowersWork(db, t, n);
    } else {
      if t.phase.Started? {
        RosterBounded(db, t.task.org);
      } else if t.phase.Written? {
        CommitAddsNoMember(db, t);
      }
      RosterStatementLowersWork(db, t, n);
    }
  }

  lemma TeamStatementLowersWork(db: Db, t: Txn, n: nat)
    requires t.task.AddTeamMember? && TeamInv(db, t) && !t.phase.Finished?
    ensures WorkLeft(t.(phase := TeamStatement(db, t).1), n) < WorkLeft(t, n)
    ensures TeamStatement(db, t).0.members == db.members
  {
  }

  lemma RosterStatementLowersWork(db: Db, t: Txn, n: nat)
    requires !t.task.AddTeamMember? && RosterInv(db, t) && !t.phase.Finished?
    requires t.phase.Started? ==> |RosterRows(db, t.task.org)| <= n
    ensures WorkLeft(t.(phase := RosterStatement(db, t).1), n) < WorkLeft(t, n)
    ensures !t.phase.Written? ==> RosterStatement(db, t).0.members == db.members
  {
  }

  lemma CommitAddsNoMember(db: Db, t: Txn)
    requires !t.task.AddTeamMember? && t.phase.Written?
    ensures |RosterStatement(db, t).0.members| <= |db.members|
  {
    var after := RosterStatement(db, t).0.members;
    assert after.Keys <= db.members.Keys;
    SubsetSize(after.Keys, db.members.Keys);
    assert |after| == |after.Keys| && |db.members| == |db.members.Keys|;
  }

  lemma AdvanceLowersWork(s: State, id: nat)
    requires Inv(s) && Unfinished(s, id) && !Blocked(s, id)
    ensures var after := Apply(s, Advance(id)); var n := |s.db.members|;
      && after != s
      && after.txns.Keys == s.txns.Keys && |after.db.members| <= n
      && Total(after.txns, after.txns.Keys, n) < Total(s.txns, s.txns.Keys, n)
  {
    var after, n := Apply(s, Advance(id)), |s.db.members|;
    StatementLowersWork(s.db, s.txns[id], n);
    assert after == State(Statement(s.db, s.txns[id]).0,
                          s.txns[id := s.txns[id].(phase := Statement(s.db, s.txns[id]).1)]);
    TotalDrops(s.txns, after.txns, s.txns.Keys, n, id);
  }

  lemma {:induction false} TotalMonotone(txns: map<nat, Txn>, ids: set<nat>, m: nat, n: nat)
    requires ids <= txns.Keys && m <= n
    ensures Total(txns, ids, m) <= Total(txns, ids, n)
    decreases ids
  {
    if ids != {} {
      TotalMonotone(txns, ids - {Least(ids)}, m, n);
    }
  }

  ghost predicate OnlyAdvances(actions: seq<Action>)
  {
    forall a | a in actions :: a.Advance?
  }

  lemma {:induction false} DriveToEnd(s: State) returns (actions: seq<Action>)
    requires Inv(s)
    ensures OnlyAdvances(actions) && UnfinishedIds(Exec(s, actions)) == {}
    decreases Total(s.txns, s.txns.Keys, |s.db.members|)
  {
    if UnfinishedIds(s) == {} {
      actions := [];
    } else {
      var id := SomeoneRuns(s);
      var after := Apply(s, Advance(id));
      AdvanceLowersWork(s, id);
      TotalMonotone(after.txns, after.txns.Keys, |after.db.members|, |s.db.members|);
      StepKeepsInv(s, Advance(id));
      var rest := DriveToEnd(after);
      actions := [Advance(id)] + rest;
      assert actions[1..] == rest;
    }
  }

  /** From every reachable state, statements alone finish every transaction. */
  lemma EveryRunCanFinish(s: State, actions: seq<Action>)
    requires Initial(s)
    ensures exists more ::
      OnlyAdvances(more) && forall id | id in Exec(s, actions + more).txns ::
        Exec(s, actions + more).txns[id].phase.Finished?
  {
    RunKeepsInv(s, actions);
    var more := DriveToEnd(Exec(s, actions));
    ExecConcat(s, actions, more);
    var end := Exec(s, actions + more);
    forall id | id in end.txns ensures end.txns[id].phase.Finished? {
      assert id !in UnfinishedIds(end);
    }
  }

  // ----- Every schedule comes to an end -----

  /** Each action executes a statement of an unfinished transaction that is not blocked. */
  ghost predicate Schedule(s: State, actions: seq<Action>)
    decreases |actions|
  {
    actions == [] || (
      && actions[0].Advance? && Unfinished(s, actions[0].id) && !Blocked(s, actions[0].id)
      && Schedule(Apply(s, actions[0]), actions[1..]))
  }

  ghost function StatementsLeft(s: State): nat
  {
    Total(s.txns, s.txns.Keys, |s.db.members|)
  }

  lemma {:induction false} ScheduleBounded(s: State, actions: seq<Action>)
    requires Inv(s) && Schedule(s, actions)
    ensures |actions| + StatementsLeft(Exec(s, actions)) <= StatementsLeft(s)
    decreases |actions|
  {
    hide Inv, Total;
    if actions != [] {
      var after := Apply(s, actions[0]);
      AdvanceLowersWork(s, actions[0].id);
      TotalMonotone(after.txns, after.txns.Keys, |after.db.members|, |s.db.members|);
      StepKeepsInv(s, actions[0]);
      ScheduleBounded(after, actions[1..]);
    }
  }

  /**
   * From every reachable state every schedule of statements is bounded in length by the statements
   * left, and one that cannot be extended has finished every transaction.
   */
  lemma EveryScheduleFinishes(s: State, actions: seq<Action>, schedule: seq<Action>)
    requires Initial(s) && Schedule(Exec(s, actions), schedule)
    ensures |schedule| <= StatementsLeft(Exec(s, actions))
    ensures var end := Exec(Exec(s, actions), schedule);
      (forall id | Unfinished(end, id) :: Blocked(end, id)) ==> forall id | id in end.txns :: !Unfinished(end, id)
  {
    hide Total;
    var start := Exec(s, actions);
    var end := Exec(start, schedule);
    RunKeepsInv(s, actions);
    RunKeepsInv(start, schedule);
    ScheduleBounded(start, schedule);
    if id :| Unfinished(end, id) {
      assert id in UnfinishedIds(end);
      var free := SomeoneRuns(end);
    }
  }
}
