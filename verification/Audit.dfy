/**
 * The in-memory audit log: an append-only list, read newest first one page at a time
 * behind a keyset cursor on (time, id).
 *
 * Identifiers are numbers in the order of their canonical text form, and are assumed
 * distinct, as `uuid4` makes them.
 */
module Audit {
  import opened Wrappers

  datatype Event = Event(id: nat, org: nat, actorUser: Option<nat>, actorKey: Option<nat>,
                         action: string, createdAt: int)

  datatype Position = Position(at: int, id: nat)

  function PositionOf(e: Event): Position
  {
    Position(e.createdAt, e.id)
  }

  predicate Before(p: Position, q: Position)
  {
    p.at < q.at || (p.at == q.at && p.id < q.id)
  }

  datatype Query = Query(org: nat, actions: seq<string>, actor: Option<nat>, from: Option<int>, upTo: Option<int>)

  /** An empty list of actions does not filter; an actor may be a user or a key. */
  predicate Matches(q: Query, e: Event)
  {
    && e.org == q.org
    && (q.actions == [] || e.action in q.actions)
    && (q.actor.None? || e.actorUser == q.actor || e.actorKey == q.actor)
    && (q.from.None? || e.createdAt >= q.from.value)
    && (q.upTo.None? || e.createdAt <= q.upTo.value)
  }

  predicate Selected(q: Query, cursor: Option<Position>, e: Event)
  {
    Matches(q, e) && (cursor.None? || Before(PositionOf(e), cursor.value))
  }

  function Select(log: seq<Event>, q: Query, cursor: Option<Position>): seq<Event>
  {
    if log == [] then []
    else (if Selected(q, cursor, log[0]) then [log[0]] else []) + Select(log[1..], q, cursor)
  }

  /** Newest first. */
  predicate Descending(es: seq<Event>)
  {
    forall i, j | 0 <= i < j < |es| :: Before(PositionOf(es[j]), PositionOf(es[i]))
  }

  /** No two events share a position: identifiers are distinct. */
  predicate Distinct(es: seq<Event>)
  {
    forall i, j | 0 <= i < j < |es| :: es[i].id != es[j].id
  }

  function Insert(e: Event, es: seq<Event>): seq<Event>
  {
    if es == [] then [e]
    else if Before(PositionOf(es[0]), PositionOf(e)) then [e] + es
    else [es[0]] + Insert(e, es[1..])
  }

  /** Sorted, newest first. */
  function Newest(es: seq<Event>): seq<Event>
  {
    if es == [] then [] else Insert(es[0], Newest(es[1..]))
  }

  /** How many of `n` items a slice up to `limit` keeps; a negative limit drops from the end. */
  function Kept(n: nat, limit: int): nat
  {
    if limit >= 0 then (if n <= limit then n else limit)
    else if n + limit >= 0 then n + limit else 0
  }

  function Page(log: seq<Event>, q: Query, cursor: Option<Position>, limit: int): seq<Event>
  {
    var all := Newest(Select(log, q, cursor));
    all[..Kept(|all|, limit)]
  }

  lemma {:induction false} SelectSnoc(log: seq<Event>, e: Event, q: Query, cursor: Option<Position>)
    ensures Select(log + [e], q, cursor)
         == Select(log, q, cursor) + (if Selected(q, cursor, e) then [e] else [])
  {
    if log != [] {
      assert (log + [e])[1..] == log[1..] + [e];
      SelectSnoc(log[1..], e, q, cursor);
    }
  }

  class AuditLog {
    var events: seq<Event>

    constructor ()
      ensures events == []
    {
      events := [];
    }

    method Record(e: Event) returns (r: Event)
      modifies this
      ensures events == old(events) + [e] && r == e
    {
      events := events + [e];
      r := e;
    }

    /** Filter, sort newest first, take the first `limit`. */
    method ListForOrg(q: Query, cursor: Option<Position>, limit: int) returns (page: seq<Event>)
      ensures page == Page(events, q, cursor, limit)
    {
      var selected := [];
      for i := 0 to |events|
        invariant selected == Select(events[..i], q, cursor)
      {
        SelectSnoc(events[..i], events[i], q, cursor);
        assert events[..i + 1] == events[..i] + [events[i]];
        if Selected(q, cursor, events[i]) {
          selected := selected + [events[i]];
        }
      }
      assert events[..|events|] == events;
      var sorted := Newest(selected);
      page := sorted[..Kept(|sorted|, limit)];
    }
  }

  // ----- A page is the newest matching events before the cursor -----

  lemma {:induction false} SelectMeaning(log: seq<Event>, q: Query, cursor: Option<Position>)
    ensures forall e :: e in Select(log, q, cursor) <==> e in log && Selected(q, cursor, e)
    ensures Distinct(log) ==> Distinct(Select(log, q, cursor))
  {
    if log != [] {
      SelectMeaning(log[1..], q, cursor);
      var rest := Select(log[1..], q, cursor);
      assert forall e :: e in log <==> e == log[0] || e in log[1..];
      if Distinct(log) {
        forall j | 0 <= j < |rest| ensures rest[j].id != log[0].id {
          assert rest[j] in log[1..];
        }
      }
    }
  }

  lemma PrependNewest(e: Event, es: seq<Event>)
    requires Descending(es) && (es != [] ==> Before(PositionOf(es[0]), PositionOf(e)))
    ensures Descending([e] + es)
  {
  }

  lemma {:induction false} InsertMeaning(e: Event, es: seq<Event>)
    requires Descending(es) && forall x | x in es :: PositionOf(x) != PositionOf(e)
    ensures var r := Insert(e, es);
      && Descending(r) && |r| == |es| + 1 && (r[0] == e || (es != [] && r[0] == es[0]))
      && forall x :: x in r <==> x == e || x in es
  {
    if es != [] {
      assert forall x :: x in es <==> x == es[0] || x in es[1..];
      if Before(PositionOf(es[0]), PositionOf(e)) {
        PrependNewest(e, es);
      } else {
        InsertMeaning(e, es[1..]);
        PrependNewest(es[0], Insert(e, es[1..]));
      }
    }
  }

  lemma {:induction false} NewestMeaning(es: seq<Event>)
    requires Distinct(es)
    ensures Descending(Newest(es)) && |Newest(es)| == |es|
    ensures forall x :: x in Newest(es) <==> x in es
  {
    if es != [] {
      NewestMeaning(es[1..]);
      assert forall x :: x in es <==> x == es[0] || x in es[1..];
      InsertMeaning(es[0], Newest(es[1..]));
    }
  }

  lemma {:induction false} DescendingUnique(es: seq<Event>, fs: seq<Event>)
    requires Descending(es) && Descending(fs) && forall x :: x in es <==> x in fs
    ensures es == fs
  {
    SomeMember(es);
    SomeMember(fs);
    if es != [] {
      assert es[0] in es && es[0] in fs;
      assert fs[0] in es;
      assert es[0] == fs[0] by {
        var i :| 0 <= i < |fs| && fs[i] == es[0];
        var j :| 0 <= j < |es| && es[j] == fs[0];
      }
      forall x ensures x in es[1..] <==> x in fs[1..] {
        TailMembers(es, x);
        TailMembers(fs, x);
      }
      DescendingUnique(es[1..], fs[1..]);
    }
  }

  lemma SomeMember(es: seq<Event>)
    ensures es == [] || exists x :: x in es
  {
    if es != [] {
      assert es[0] in es;
    }
  }

  lemma TailMembers(es: seq<Event>, x: Event)
    requires es != [] && Descending(es)
    ensures x in es[1..] <==> x in es && x != es[0]
  {
    if x in es && x != es[0] {
      var i :| 0 <= i < |es| && es[i] == x;
      assert es[1..][i - 1] == x;
    }
    if x in es[1..] {
      var i :| 0 <= i < |es[1..]| && es[1..][i] == x;
      assert es[i + 1] == x && Before(PositionOf(es[i + 1]), PositionOf(es[0]));
    }
  }

  /**
   * A page is descending, holds only selected events, and misses a selected event only
   * when it is full of newer ones.
   */
  lemma PageMeaning(log: seq<Event>, q: Query, cursor: Option<Position>, limit: nat)
    requires Distinct(log)
    ensures var page := Page(log, q, cursor, limit);
      && Descending(page) && |page| <= limit
      && (forall e | e in page :: e in log && Selected(q, cursor, e))
      && (forall e | e in log && Selected(q, cursor, e) && e !in page ::
            |page| == limit && forall x | x in page :: Before(PositionOf(e), PositionOf(x)))
  {
    SelectMeaning(log, q, cursor);
    NewestMeaning(Select(log, q, cursor));
    var all, page := Newest(Select(log, q, cursor)), Page(log, q, cursor, limit);
    PrefixNewest(all, |page|);
    assert page == all[..|page|];
  }

  // ----- The filter and the order, spelled out -----

  /** Newest first means later first, and the greater identifier first among equal times. */
  lemma PageOrder(log: seq<Event>, q: Query, cursor: Option<Position>, limit: nat, i: nat, j: nat)
    requires Distinct(log) && i < j < |Page(log, q, cursor, limit)|
    ensures var page := Page(log, q, cursor, limit);
      page[i].createdAt > page[j].createdAt || (page[i].createdAt == page[j].createdAt && page[i].id > page[j].id)
  {
    hide Page;
    PageMeaning(log, q, cursor, limit);
    var page := Page(log, q, cursor, limit);
    assert Before(PositionOf(page[j]), PositionOf(page[i]));
  }

  /** Every filter holds of every event of a page. */
  lemma PageFilters(log: seq<Event>, q: Query, cursor: Option<Position>, limit: nat, e: Event)
    requires Distinct(log) && e in Page(log, q, cursor, limit)
    ensures e in log && e.org == q.org
    ensures q.actions != [] ==> e.action in q.actions
    ensures q.actor.Some? ==> e.actorUser == q.actor || e.actorKey == q.actor
    ensures q.from.Some? ==> q.from.value <= e.createdAt
    ensures q.upTo.Some? ==> e.createdAt <= q.upTo.value
    ensures cursor.Some? ==>
      e.createdAt < cursor.value.at || (e.createdAt == cursor.value.at && e.id < cursor.value.id)
  {
    PageMeaning(log, q, cursor, limit);
  }

  /** An event that meets every filter is on the page, unless the page is full of newer ones. */
  lemma FilteredOnPage(log: seq<Event>, q: Query, cursor: Option<Position>, limit: nat, e: Event)
    requires Distinct(log) && e in log && e.org == q.org
    requires q.actions != [] ==> e.action in q.actions
    requires q.actor.Some? ==> e.actorUser == q.actor || e.actorKey == q.actor
    requires q.from.Some? ==> q.from.value <= e.createdAt
    requires q.upTo.Some? ==> e.createdAt <= q.upTo.value
    requires cursor.Some? ==>
      e.createdAt < cursor.value.at || (e.createdAt == cursor.value.at && e.id < cursor.value.id)
    ensures var page := Page(log, q, cursor, limit);
      e in page || (|page| == limit && forall x | x in page ::
        x.createdAt > e.createdAt || (x.createdAt == e.createdAt && x.id > e.id))
  {
    PageMeaning(log, q, cursor, limit);
  }

  /** A negative limit drops that many of the oldest. */
  lemma NegativeLimit(log: seq<Event>, q: Query, cursor: Option<Position>, dropped: int)
    requires dropped > 0
    ensures var all := Page(log, q, cursor, |Select(log, q, cursor)|);
      Page(log, q, cursor, -dropped) == if dropped <= |all| then all[..|all| - dropped] else []
  {
    NewestSize(Select(log, q, cursor));
  }

  lemma {:induction false} NewestSize(es: seq<Event>)
    ensures |Newest(es)| == |es|
  {
    if es != [] {
      NewestSize(es[1..]);
      InsertSize(es[0], Newest(es[1..]));
    }
  }

  lemma {:induction false} InsertSize(e: Event, es: seq<Event>)
    ensures |Insert(e, es)| == |es| + 1
  {
    if es != [] && !Before(PositionOf(es[0]), PositionOf(e)) {
      InsertSize(e, es[1..]);
    }
  }

  function OwnEvents(log: seq<Event>, org: nat): seq<Event>
  {
    if log == [] then []
    else (if log[0].org == org then [log[0]] else []) + OwnEvents(log[1..], org)
  }

  lemma {:induction false} SelectOwn(log: seq<Event>, q: Query, cursor: Option<Position>)
    ensures Select(log, q, cursor) == Select(OwnEvents(log, q.org), q, cursor)
  {
    if log != [] {
      SelectOwn(log[1..], q, cursor);
      var own := OwnEvents(log[1..], q.org);
      if log[0].org == q.org {
        assert OwnEvents(log, q.org) == [log[0]] + own && ([log[0]] + own)[1..] == own;
      } else {
        assert OwnEvents(log, q.org) == [] + own == own;
        assert Select(log, q, cursor) == [] + Select(log[1..], q, cursor);
      }
    }
  }

  /** An organization's pages are the same whatever other organizations do: their events might as well not exist. */
  lemma OtherOrganizationsInvisible(log: seq<Event>, q: Query, cursor: Option<Position>, limit: int)
    ensures Page(log, q, cursor, limit) == Page(OwnEvents(log, q.org), q, cursor, limit)
  {
    SelectOwn(log, q, cursor);
  }

  lemma PrefixNewest(all: seq<Event>, n: nat)
    requires n <= |all| && Descending(all)
    ensures Descending(all[..n]) && forall x | x in all[..n] :: x in all
    ensures forall e, x | e in all && e !in all[..n] && x in all[..n] :: Before(PositionOf(e), PositionOf(x))
  {
    forall e, x | e in all && e !in all[..n] && x in all[..n] ensures Before(PositionOf(e), PositionOf(x)) {
      var i :| 0 <= i < |all| && all[i] == e;
      var j :| 0 <= j < n && all[j] == x;
      assert forall k | 0 <= k < n :: all[k] in all[..n];
    }
  }

  // ----- Following the cursor while the log grows -----

  /** The log as it stands at each page request: it only ever grows at the end. */
  ghost predicate Growing(logs: seq<seq<Event>>)
  {
    logs == [] ||
    (Distinct(logs[0]) && (|logs| > 1 ==> logs[0] <= logs[1]) && Growing(logs[1..]))
  }

  /** Every event returned, asking for page after page until one is short or the requests run out. */
  function Follow(logs: seq<seq<Event>>, q: Query, cursor: Option<Position>, limit: nat): seq<Event>
    requires limit >= 1
    decreases |logs|
  {
    if logs == [] then []
    else
      var page := Page(logs[0], q, cursor, limit);
      if |page| < limit then page
      else page + Follow(logs[1..], q, Some(PositionOf(page[|page| - 1])), limit)
  }

  /** The reader saw a short page: there was nothing left. */
  predicate Finished(logs: seq<seq<Event>>, q: Query, cursor: Option<Position>, limit: nat)
    requires limit >= 1
    decreases |logs|
  {
    if logs == [] then false
    else
      var page := Page(logs[0], q, cursor, limit);
      |page| < limit || Finished(logs[1..], q, Some(PositionOf(page[|page| - 1])), limit)
  }

  lemma CursorBelowPage(page: seq<Event>, e: Event)
    requires page != [] && Descending(page) && e in page
    ensures !Before(PositionOf(e), PositionOf(page[|page| - 1]))
  {
    var i :| 0 <= i < |page| && page[i] == e;
  }

  lemma PageDescends(log: seq<Event>, q: Query, cursor: Option<Position>, limit: nat)
    requires Distinct(log)
    ensures var page := Page(log, q, cursor, limit);
      && Descending(page) && |page| <= limit
      && forall e | e in page :: cursor.None? || Before(PositionOf(e), cursor.value)
  {
    PageMeaning(log, q, cursor, limit);
  }

  /** Pages never repeat an event, whatever is appended between them. */
  lemma {:induction false} NothingTwice(logs: seq<seq<Event>>, q: Query, cursor: Option<Position>, limit: nat)
    requires Growing(logs) && limit >= 1
    ensures var all := Follow(logs, q, cursor, limit);
      && Descending(all)
      && forall e | e in all :: cursor.None? || Before(PositionOf(e), cursor.value)
    decreases |logs|
  {
    if logs != [] {
      var page := Page(logs[0], q, cursor, limit);
      PageDescends(logs[0], q, cursor, limit);
      if |page| == limit {
        var next := PositionOf(page[|page| - 1]);
        var rest := Follow(logs[1..], q, Some(next), limit);
        NothingTwice(logs[1..], q, Some(next), limit);
        AppendPage(page, rest, next, cursor);
      }
    }
  }

  /** What comes after the last event of a page goes behind the page, below its cursor. */
  lemma AppendPage(a: seq<Event>, b: seq<Event>, next: Position, cursor: Option<Position>)
    requires a != [] && Descending(a) && Descending(b) && next == PositionOf(a[|a| - 1])
    requires forall e | e in b :: Before(PositionOf(e), next)
    requires forall e | e in a :: cursor.None? || Before(PositionOf(e), cursor.value)
    ensures Descending(a + b)
    ensures forall e | e in a + b :: cursor.None? || Before(PositionOf(e), cursor.value)
  {
    var c := a + b;
    forall i, j | 0 <= i < j < |c| ensures Before(PositionOf(c[j]), PositionOf(c[i])) {
      if i < |a| <= j {
        assert b[j - |a|] in b;
        CursorBelowPage(a, a[i]);
      }
    }
    assert a[|a| - 1] in a;
  }

  /** A selected event that a page misses is still ahead of the cursor it leaves. */
  lemma StillAhead(log: seq<Event>, q: Query, cursor: Option<Position>, limit: nat, e: Event)
    requires Distinct(log) && limit >= 1 && e in log && Selected(q, cursor, e)
    requires e !in Page(log, q, cursor, limit)
    ensures var page := Page(log, q, cursor, limit);
      |page| == limit && Selected(q, Some(PositionOf(page[limit - 1])), e)
  {
    PageMeaning(log, q, cursor, limit);
    var page := Page(log, q, cursor, limit);
    assert page[limit - 1] in page;
  }

  /** A matching event of the first log turns up by the time a short page is seen. */
  lemma {:induction false} NothingMissed(logs: seq<seq<Event>>, q: Query, cursor: Option<Position>, limit: nat,
                                         e: Event)
    requires Growing(logs) && limit >= 1 && logs != [] && e in logs[0] && Selected(q, cursor, e)
    requires Finished(logs, q, cursor, limit)
    ensures e in Follow(logs, q, cursor, limit)
    decreases |logs|
  {
    var page := Page(logs[0], q, cursor, limit);
    if e !in page {
      StillAhead(logs[0], q, cursor, limit, e);
      var next := Some(PositionOf(page[limit - 1]));
      assert logs[0] <= logs[1];
      NothingMissed(logs[1..], q, next, limit, e);
    }
  }

  /** Once, and exactly once: an event present at the first page is returned at one position. */
  lemma EachOnce(logs: seq<seq<Event>>, q: Query, limit: nat, e: Event)
    requires Growing(logs) && limit >= 1 && logs != [] && e in logs[0] && Matches(q, e)
    requires Finished(logs, q, None, limit)
    ensures var all := Follow(logs, q, None, limit);
      exists i | 0 <= i < |all| :: all[i] == e && forall j | 0 <= j < |all| && all[j] == e :: j == i
  {
    NothingMissed(logs, q, None, limit, e);
    NothingTwice(logs, q, None, limit);
    DescendingOnce(Follow(logs, q, None, limit), e);
  }

  lemma DescendingOnce(all: seq<Event>, e: Event)
    requires Descending(all) && e in all
    ensures exists i | 0 <= i < |all| :: all[i] == e && forall j | 0 <= j < |all| && all[j] == e :: j == i
  {
    var i :| 0 <= i < |all| && all[i] == e;
    assert forall j | 0 <= j < |all| && all[j] == e :: j == i;
  }

  // ----- Without appends -----

  function Repeat(log: seq<Event>, n: nat): seq<seq<Event>>
  {
    seq(n, i => log)
  }

  lemma {:induction false} RepeatGrows(log: seq<Event>, n: nat)
    requires Distinct(log)
    ensures Growing(Repeat(log, n))
  {
    if n > 0 {
      RepeatGrows(log, n - 1);
      assert Repeat(log, n)[1..] == Repeat(log, n - 1);
    }
  }

  lemma {:induction false} OnlySelected(logs: seq<seq<Event>>, q: Query, cursor: Option<Position>, limit: nat, e: Event)
    requires Growing(logs) && limit >= 1 && e in Follow(logs, q, cursor, limit)
    ensures Matches(q, e) && exists i | 0 <= i < |logs| :: e in logs[i]
    decreases |logs|
  {
    hide Page;
    var page := Page(logs[0], q, cursor, limit);
    PageMeaning(logs[0], q, cursor, limit);
    if |page| == limit {
      var next := Some(PositionOf(page[|page| - 1]));
      if e !in page {
        OnlySelected(logs[1..], q, next, limit, e);
        var i :| 0 <= i < |logs[1..]| && e in logs[1..][i];
        assert e in logs[i + 1];
      }
    }
  }

  /** Whatever is appended between pages, a reader sees only events of the organization asked for. */
  lemma FollowOwn(logs: seq<seq<Event>>, q: Query, limit: nat, e: Event)
    requires Growing(logs) && limit >= 1 && e in Follow(logs, q, None, limit)
    ensures e.org == q.org
    ensures q.actions != [] ==> e.action in q.actions
    ensures q.actor.Some? ==> e.actorUser == q.actor || e.actorKey == q.actor
    ensures q.from.Some? ==> q.from.value <= e.createdAt
    ensures q.upTo.Some? ==> e.createdAt <= q.upTo.value
  {
    OnlySelected(logs, q, None, limit, e);
  }

  /** On a still log, a reader finishes after as many pages as it takes, plus a short one. */
  lemma {:induction false} ReaderFinishes(log: seq<Event>, q: Query, cursor: Option<Position>, limit: nat, n: nat)
    requires Distinct(log) && limit >= 1 && n * limit > |Select(log, q, cursor)|
    ensures Finished(Repeat(log, n), q, cursor, limit)
    decreases n
  {
    OneMore(n, limit, |Select(log, q, cursor)|);
    var page := Page(log, q, cursor, limit);
    assert Repeat(log, n)[1..] == Repeat(log, n - 1);
    if |page| >= limit {
      FewerLeft(log, q, cursor, limit);
      ReaderFinishes(log, q, Some(PositionOf(page[limit - 1])), limit, n - 1);
    }
  }

  lemma OneMore(n: nat, limit: nat, m: nat)
    requires n * limit > m
    ensures n > 0 && (n - 1) * limit == n * limit - limit
  {
  }

  /** In a descending list, behind an element means after it. */
  lemma BehindMeansAfter(all: seq<Event>, n: nat, x: Event)
    requires Descending(all) && 0 < n <= |all|
    ensures x in all[n..] <==> x in all && Before(PositionOf(x), PositionOf(all[n - 1]))
  {
    if x in all && Before(PositionOf(x), PositionOf(all[n - 1])) {
      var j :| 0 <= j < |all| && all[j] == x;
      assert all[n..][j - n] == x;
    }
    if x in all[n..] {
      var j :| 0 <= j < |all[n..]| && all[n..][j] == x;
      assert all[n + j] == x;
    }
  }

  lemma FewerLeft(log: seq<Event>, q: Query, cursor: Option<Position>, limit: nat)
    requires Distinct(log) && limit >= 1 && |Page(log, q, cursor, limit)| == limit
    ensures var page := Page(log, q, cursor, limit);
      |Select(log, q, Some(PositionOf(page[limit - 1])))| + limit == |Select(log, q, cursor)|
  {
    SelectMeaning(log, q, cursor);
    NewestMeaning(Select(log, q, cursor));
    var all := Newest(Select(log, q, cursor));
    var last := all[limit - 1];
    var next := Some(PositionOf(last));
    SelectMeaning(log, q, next);
    NewestMeaning(Select(log, q, next));
    var left := Newest(Select(log, q, next));
    assert last in all && Selected(q, cursor, last);
    forall x ensures x in all[limit..] <==> x in left {
      BehindMeansAfter(all, limit, x);
      assert Selected(q, next, x) <==> Selected(q, cursor, x) && Before(PositionOf(x), PositionOf(last));
    }
    DescendingUnique(all[limit..], left);
  }

  /** With no appends the pages, put together, are the whole filtered log newest first. */
  lemma StillLog(log: seq<Event>, q: Query, limit: nat, n: nat)
    requires Distinct(log) && limit >= 1 && n * limit > |Select(log, q, None)|
    ensures Follow(Repeat(log, n), q, None, limit) == Newest(Select(log, q, None))
  {
    hide Follow, Finished, Page, Newest, Select;
    SelectMeaning(log, q, None);
    NewestMeaning(Select(log, q, None));
    var logs := Repeat(log, n);
    var all, whole := Follow(logs, q, None, limit), Newest(Select(log, q, None));
    assert n > 0 && logs[0] == log;
    RepeatGrows(log, n);
    ReaderFinishes(log, q, None, limit, n);
    NothingTwice(logs, q, None, limit);
    forall e ensures e in all <==> e in whole {
      if e in all {
        OnlySelected(logs, q, None, limit, e);
      }
      if e in whole {
        NothingMissed(logs, q, None, limit, e);
      }
    }
    DescendingUnique(all, whole);
  }

  // ----- With newer events appended -----

  /** Each log extends `base`, by events that are not behind the cursor. */
  ghost predicate NewerSince(base: seq<Event>, logs: seq<seq<Event>>, cursor: Position)
  {
    forall i | 0 <= i < |logs| ::
      && Distinct(logs[i]) && base <= logs[i]
      && forall e | e in logs[i][|base|..] :: !Before(PositionOf(e), cursor)
  }

  /** Behind the cursor the two logs hold the same events, so their pages are the same. */
  lemma SamePage(base: seq<Event>, log: seq<Event>, q: Query, cursor: Position, limit: nat)
    requires Distinct(base) && NewerSince(base, [log], cursor)
    ensures Page(log, q, Some(cursor), limit) == Page(base, q, Some(cursor), limit)
  {
    hide Select, Newest;
    assert log == [log][0];
    var before, after := Select(base, q, Some(cursor)), Select(log, q, Some(cursor));
    SelectMeaning(base, q, Some(cursor));
    SelectMeaning(log, q, Some(cursor));
    NewestMeaning(before);
    NewestMeaning(after);
    assert log == base + log[|base|..];
    forall e ensures e in Newest(before) <==> e in Newest(after) {
      assert e in log <==> e in base || e in log[|base|..];
    }
    DescendingUnique(Newest(before), Newest(after));
  }

  lemma CursorMovesBack(base: seq<Event>, logs: seq<seq<Event>>, cursor: Position, next: Position)
    requires NewerSince(base, logs, cursor) && logs != [] && Before(next, cursor)
    ensures NewerSince(base, logs[1..], next)
  {
    forall i | 0 <= i < |logs[1..]| ensures base <= logs[1..][i] && Distinct(logs[1..][i])
      && forall e | e in logs[1..][i][|base|..] :: !Before(PositionOf(e), next)
    {
      assert logs[1..][i] == logs[i + 1];
    }
  }

  /** From a cursor on, the reader sees what they would see on the log that does not grow. */
  lemma {:induction false} FollowNewer(base: seq<Event>, logs: seq<seq<Event>>, q: Query, cursor: Position, limit: nat)
    requires limit >= 1 && Distinct(base) && NewerSince(base, logs, cursor)
    ensures Follow(logs, q, Some(cursor), limit) == Follow(Repeat(base, |logs|), q, Some(cursor), limit)
    ensures Finished(logs, q, Some(cursor), limit) <==> Finished(Repeat(base, |logs|), q, Some(cursor), limit)
    decreases |logs|
  {
    hide Page, NewerSince;
    if logs != [] {
      var page := Page(base, q, Some(cursor), limit);
      NewerFirst(base, logs, cursor);
      SamePage(base, logs[0], q, cursor, limit);
      PageMeaning(base, q, Some(cursor), limit);
      assert Repeat(base, |logs|)[1..] == Repeat(base, |logs| - 1);
      if |page| == limit {
        var next := PositionOf(page[limit - 1]);
        assert page[limit - 1] in page;
        CursorMovesBack(base, logs, cursor, next);
        FollowNewer(base, logs[1..], q, next, limit);
      }
    }
  }

  lemma NewerFirst(base: seq<Event>, logs: seq<seq<Event>>, cursor: Position)
    requires NewerSince(base, logs, cursor) && logs != []
    ensures NewerSince(base, [logs[0]], cursor)
  {
  }

  /** Every log extends the first by events newer than all of its. */
  ghost predicate AppendsNewer(logs: seq<seq<Event>>)
  {
    logs != [] && forall i | 0 <= i < |logs| ::
      && Distinct(logs[i]) && logs[0] <= logs[i]
      && forall x, e | x in logs[0] && e in logs[i][|logs[0]|..] :: Before(PositionOf(x), PositionOf(e))
  }

  lemma NewerThanFirst(logs: seq<seq<Event>>, x: Event)
    requires AppendsNewer(logs) && x in logs[0]
    ensures NewerSince(logs[0], logs[1..], PositionOf(x))
  {
    forall i | 0 <= i < |logs[1..]| ensures logs[0] <= logs[1..][i] && Distinct(logs[1..][i])
      && forall e | e in logs[1..][i][|logs[0]|..] :: !Before(PositionOf(e), PositionOf(x))
    {
      assert logs[1..][i] == logs[i + 1];
    }
  }

  /**
   * When only newer events are appended between pages, a reader who asks often enough finishes
   * and has seen exactly the log as it stood at the first page, newest first.
   */
  lemma NewerAppends(logs: seq<seq<Event>>, q: Query, limit: nat)
    requires AppendsNewer(logs) && limit >= 1 && |logs| * limit > |Select(logs[0], q, None)|
    ensures Finished(logs, q, None, limit)
    ensures Follow(logs, q, None, limit) == Newest(Select(logs[0], q, None))
  {
    hide Page, AppendsNewer, Select, Newest;
    FirstDistinct(logs);
    var base, n := logs[0], |logs|;
    var page := Page(base, q, None, limit);
    PageMeaning(base, q, None, limit);
    assert Repeat(base, n)[1..] == Repeat(base, n - 1) && Repeat(base, n)[0] == base;
    if |page| == limit {
      assert page[limit - 1] in page;
      NewerThanFirst(logs, page[limit - 1]);
      FollowNewer(base, logs[1..], q, PositionOf(page[limit - 1]), limit);
    }
    ReaderFinishes(base, q, None, limit, n);
    StillLog(base, q, limit, n);
  }

  lemma FirstDistinct(logs: seq<seq<Event>>)
    requires AppendsNewer(logs)
    ensures logs != [] && Distinct(logs[0])
  {
  }
}
