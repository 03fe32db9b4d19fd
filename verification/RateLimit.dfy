/**
 * The fixed-window rate limiters: counters in a plain map, and counters in Redis whose
 * keys expire one window after their last increment.
 *
 * A clock reading is a non-negative real number of seconds, shared by both stores; a
 * Redis key is gone once the clock reaches its expiry time.
 */
module RateLimit {
  import opened Arithmetic

  datatype Key = Key(principal: string, start: int)

  datatype Request = Request(principal: string, at: real)

  function WindowStart(window: nat, t: real): int
    requires window > 0 && t >= 0.0
  {
    t.Floor / window * window
  }

  function KeyOf(window: nat, r: Request): Key
    requires window > 0 && r.at >= 0.0
  {
    Key(r.principal, WindowStart(window, r.at))
  }

  // ----- One check -----

  function MapCheck(max: int, window: nat, counters: map<Key, nat>, r: Request): (map<Key, nat>, bool)
    requires window > 0 && r.at >= 0.0
  {
    var key := KeyOf(window, r);
    var current := (if key in counters then counters[key] else 0) + 1;
    (counters[key := current], current <= max)
  }

  datatype Entry = Entry(count: nat, expiresAt: real)

  predicate Live(entries: map<Key, Entry>, key: Key, now: real)
  {
    key in entries && now < entries[key].expiresAt
  }

  /** INCR then EXPIRE: a key that is gone starts again from nothing. */
  function RedisCheck(max: int, window: nat, entries: map<Key, Entry>, r: Request): (map<Key, Entry>, bool)
    requires window > 0 && r.at >= 0.0
  {
    var key := KeyOf(window, r);
    var current := (if Live(entries, key, r.at) then entries[key].count else 0) + 1;
    (entries[key := Entry(current, r.at + window as real)], current <= max)
  }

  class MapRateLimiter {
    const max: int
    const window: nat
    var counters: map<Key, nat>

    constructor (max: int, window: nat)
      requires window > 0
      ensures this.max == max && this.window == window && counters == map[]
    {
      this.max, this.window := max, window;
      counters := map[];
    }

    /** Refuse when the window is over its limit; a refused request is counted too. */
    method Check(principal: string, now: real) returns (admitted: bool)
      requires window > 0 && now >= 0.0
      modifies this
      ensures (counters, admitted) == MapCheck(max, window, old(counters), Request(principal, now))
    {
      var start := now.Floor / window * window;
      var key := Key(principal, start);
      var current := (if key in counters then counters[key] else 0) + 1;
      counters := counters[key := current];
      admitted := !(current > max);
    }
  }

  class RedisRateLimiter {
    const max: int
    const window: nat
    var entries: map<Key, Entry>

    constructor (max: int, window: nat)
      requires window > 0
      ensures this.max == max && this.window == window && entries == map[]
    {
      this.max, this.window := max, window;
      entries := map[];
    }

    method Incr(key: Key, now: real) returns (current: nat)
      modifies this
      ensures current == (if Live(old(entries), key, now) then old(entries)[key].count else 0) + 1
      ensures key in entries && entries[key].count == current
      ensures entries == old(entries)[key := entries[key]]
    {
      if Live(entries, key, now) {
        current := entries[key].count + 1;
        entries := entries[key := entries[key].(count := current)];
      } else {
        current := 1;
        entries := entries[key := Entry(1, now)];
      }
    }

    method Expire(key: Key, now: real, seconds: nat)
      requires key in entries
      modifies this
      ensures entries == old(entries)[key := old(entries)[key].(expiresAt := now + seconds as real)]
    {
      entries := entries[key := entries[key].(expiresAt := now + seconds as real)];
    }

    method Check(principal: string, now: real) returns (admitted: bool)
      requires window > 0 && now >= 0.0
      modifies this
      ensures (entries, admitted) == RedisCheck(max, window, old(entries), Request(principal, now))
    {
      var start := now.Floor / window * window;
      var key := Key(principal, start);
      var current := Incr(key, now);
      Expire(key, now, window);
      assert entries == old(entries)[key := Entry(current, now + window as real)];
      assert key == KeyOf(window, Request(principal, now));
      admitted := !(current > max);
    }
  }

  // ----- Runs -----

  predicate Monotone(rs: seq<Request>)
  {
    && (forall i | 0 <= i < |rs| :: rs[i].at >= 0.0)
    && (forall i, j | 0 <= i < j < |rs| :: rs[i].at <= rs[j].at)
  }

  predicate NonNegative(rs: seq<Request>)
  {
    forall i | 0 <= i < |rs| :: rs[i].at >= 0.0
  }

  function MapRun(max: int, window: nat, counters: map<Key, nat>, rs: seq<Request>): seq<bool>
    requires window > 0 && NonNegative(rs)
    decreases |rs|
  {
    if rs == [] then []
    else
      var (after, admitted) := MapCheck(max, window, counters, rs[0]);
      [admitted] + MapRun(max, window, after, rs[1..])
  }

  function MapCounters(max: int, window: nat, counters: map<Key, nat>, rs: seq<Request>): map<Key, nat>
    requires window > 0 && NonNegative(rs)
    decreases |rs|
  {
    if rs == [] then counters
    else MapCounters(max, window, MapCheck(max, window, counters, rs[0]).0, rs[1..])
  }

  function RedisRun(max: int, window: nat, entries: map<Key, Entry>, rs: seq<Request>): (map<Key, Entry>, seq<bool>)
    requires window > 0 && NonNegative(rs)
    decreases |rs|
  {
    if rs == [] then (entries, [])
    else
      var (after, admitted) := RedisCheck(max, window, entries, rs[0]);
      var (last, rest) := RedisRun(max, window, after, rs[1..]);
      (last, [admitted] + rest)
  }

  // ----- Windows -----

  lemma WindowHolds(window: nat, t: real)
    requires window > 0 && t >= 0.0
    ensures WindowStart(window, t) as real <= t < (WindowStart(window, t) + window) as real
  {
    QuotientBounds(t.Floor, window);
  }

  /** Two requests are counted together exactly when one principal made them in one aligned window. */
  lemma CountedTogetherExactly(window: nat, r: Request, o: Request)
    requires window > 0 && r.at >= 0.0 && o.at >= 0.0
    ensures KeyOf(window, r) == KeyOf(window, o) <==>
      r.principal == o.principal
      && exists n: nat :: InWindow(window, n, r.at) && InWindow(window, n, o.at)
  {
    hide WindowStart, InWindow;
    if KeyOf(window, r) == KeyOf(window, o) {
      var n := OwnWindow(window, r.at);
      var m := OwnWindow(window, o.at);
      SameStart(window, n, m);
    }
    if m: nat :| InWindow(window, m, r.at) && InWindow(window, m, o.at) {
      StartOfWindow(window, m, r.at);
      StartOfWindow(window, m, o.at);
    }
  }

  lemma OwnWindow(window: nat, t: real) returns (n: nat)
    requires window > 0 && t >= 0.0
    ensures InWindow(window, n, t) && WindowStart(window, t) == n * window
  {
    n := t.Floor / window;
    QuotientBounds(t.Floor, window);
    assert (n + 1) * window == n * window + window;
  }

  lemma SameStart(window: nat, n: nat, m: nat)
    requires window > 0 && n * window == m * window
    ensures n == m
  {
    QuotientIs(n * window, window, n);
    QuotientIs(m * window, window, m);
  }

  /** The `n`th window, counted from time zero, holds the moment `t`. */
  predicate InWindow(window: nat, n: nat, t: real)
  {
    (n * window) as real <= t < ((n + 1) * window) as real
  }

  lemma StartOfWindow(window: nat, n: nat, t: real)
    requires window > 0 && t >= 0.0 && InWindow(window, n, t)
    ensures WindowStart(window, t) == n * window
  {
    assert (n + 1) * window == n * window + window;
    QuotientIs(t.Floor, window, n);
  }

  lemma WindowsApart(window: nat, s: real, t: real)
    requires window > 0 && 0.0 <= s <= t
    ensures var a, b := WindowStart(window, s), WindowStart(window, t);
      a == b || a + window == b || a + 2 * window <= b
  {
    QuotientsOrdered(s.Floor, t.Floor, window);
    MultiplesApart(s.Floor / window, t.Floor / window, window);
  }

  lemma WindowShift(window: nat, t: real)
    requires window > 0 && t >= 0.0
    ensures WindowStart(window, t + window as real) == WindowStart(window, t) + window
  {
    var f, q := t.Floor, t.Floor / window;
    assert (t + window as real).Floor == f + window;
    QuotientBounds(f, window);
    assert (q + 1) * window == q * window + window;
    QuotientIs(f + window, window, q + 1);
  }

  // ----- Expiry never matters -----

  /** Both stores hold the same counts, and no Redis key can lapse inside its own window. */
  ghost predicate Agree(window: nat, counters: map<Key, nat>, entries: map<Key, Entry>, now: real)
    requires window > 0 && now >= 0.0
  {
    && counters.Keys == entries.Keys
    && forall k | k in entries ::
         && entries[k].count == counters[k]
         && (k.start + window) as real <= entries[k].expiresAt < (k.start + 2 * window) as real
         && (var current := WindowStart(window, now);
             k.start == current || k.start + window == current || k.start + 2 * window <= current)
  }

  lemma CheckAgrees(max: int, window: nat, counters: map<Key, nat>, entries: map<Key, Entry>, before: real, r: Request)
    requires window > 0 && 0.0 <= before <= r.at && Agree(window, counters, entries, before)
    ensures MapCheck(max, window, counters, r).1 == RedisCheck(max, window, entries, r).1
    ensures Agree(window, MapCheck(max, window, counters, r).0, RedisCheck(max, window, entries, r).0, r.at)
  {
    WindowHolds(window, r.at);
    WindowsApart(window, before, r.at);
    var key := KeyOf(window, r);
    assert key in entries ==> Live(entries, key, r.at);
  }

  /** The expiring limiter decides like the map that never forgets, on every run. */
  lemma {:induction false} SameDecisions(max: int, window: nat, counters: map<Key, nat>, entries: map<Key, Entry>,
                                         before: real, rs: seq<Request>)
    requires window > 0 && before >= 0.0 && Monotone(rs) && Agree(window, counters, entries, before)
    requires rs != [] ==> before <= rs[0].at
    ensures MapRun(max, window, counters, rs) == RedisRun(max, window, entries, rs).1
    decreases |rs|
  {
    if rs != [] {
      CheckAgrees(max, window, counters, entries, before, rs[0]);
      SameDecisions(max, window, MapCheck(max, window, counters, rs[0]).0,
                    RedisCheck(max, window, entries, rs[0]).0, rs[0].at, rs[1..]);
    }
  }

  lemma LimitersAgree(max: int, window: nat, rs: seq<Request>)
    requires window > 0 && Monotone(rs)
    ensures MapRun(max, window, map[], rs) == RedisRun(max, window, map[], rs).1
  {
    if rs != [] {
      SameDecisions(max, window, map[], map[], rs[0].at, rs);
    }
  }

  lemma {:induction false} RunAgrees(max: int, window: nat, counters: map<Key, nat>, entries: map<Key, Entry>,
                                     before: real, rs: seq<Request>, now: real)
    requires window > 0 && before >= 0.0 && Monotone(rs) && Agree(window, counters, entries, before)
    requires rs != [] ==> before <= rs[0].at && rs[|rs| - 1].at <= now
    requires before <= now
    ensures Agree(window, MapCounters(max, window, counters, rs), RedisRun(max, window, entries, rs).0, now)
    decreases |rs|
  {
    if rs == [] {
      WindowsApart(window, before, now);
      assert Agree(window, counters, entries, now);
    } else {
      CheckAgrees(max, window, counters, entries, before, rs[0]);
      RunAgrees(max, window, MapCheck(max, window, counters, rs[0]).0,
                RedisCheck(max, window, entries, rs[0]).0, rs[0].at, rs[1..], now);
    }
  }

  /** At any moment a principal has at most two live keys: this window's and the last one's. */
  lemma LiveKeys(max: int, window: nat, rs: seq<Request>, now: real, principal: string)
    requires window > 0 && Monotone(rs) && now >= 0.0 && (rs != [] ==> rs[|rs| - 1].at <= now)
    ensures var entries := RedisRun(max, window, map[], rs).0;
      var live := set k | k in entries && k.principal == principal && Live(entries, k, now);
      && live <= {Key(principal, WindowStart(window, now)), Key(principal, WindowStart(window, now) - window)}
      && |live| <= 2
  {
    if rs != [] {
      RunAgrees(max, window, map[], map[], rs[0].at, rs, now);
      var entries := RedisRun(max, window, map[], rs).0;
      LiveStarts(window, MapCounters(max, window, map[], rs), entries, now, principal);
    }
  }

  lemma LiveStarts(window: nat, counters: map<Key, nat>, entries: map<Key, Entry>, now: real, principal: string)
    requires window > 0 && now >= 0.0 && Agree(window, counters, entries, now)
    ensures var live := set k | k in entries && k.principal == principal && Live(entries, k, now);
      && live <= {Key(principal, WindowStart(window, now)), Key(principal, WindowStart(window, now) - window)}
      && |live| <= 2
  {
    WindowHolds(window, now);
    var current := WindowStart(window, now);
    var live := set k | k in entries && k.principal == principal && Live(entries, k, now);
    forall k | k in live ensures k == Key(principal, current) || k == Key(principal, current - window) {
      assert entries[k].expiresAt < (k.start + 2 * window) as real;
    }
    SubsetSize(live, {Key(principal, current), Key(principal, current - window)});
  }

  // ----- What is admitted -----

  /** Requests so far under one key. */
  function Count(window: nat, rs: seq<Request>, key: Key): nat
    requires window > 0 && NonNegative(rs)
  {
    if rs == [] then 0
    else Count(window, rs[..|rs| - 1], key) + (if KeyOf(window, rs[|rs| - 1]) == key then 1 else 0)
  }

  /** Admission by its meaning: fewer than `max` earlier requests share the window. */
  predicate Admitted(max: int, window: nat, rs: seq<Request>, i: nat)
    requires window > 0 && NonNegative(rs) && i < |rs|
  {
    Count(window, rs[..i], KeyOf(window, rs[i])) < max
  }

  ghost predicate Counts(window: nat, counters: map<Key, nat>, rs: seq<Request>)
    requires window > 0 && NonNegative(rs)
  {
    forall k: Key :: (if k in counters then counters[k] else 0) == Count(window, rs, k)
  }

  lemma CheckCounts(max: int, window: nat, counters: map<Key, nat>, done: seq<Request>, r: Request)
    requires window > 0 && NonNegative(done) && Counts(window, counters, done) && r.at >= 0.0
    ensures NonNegative(done + [r])
    ensures Counts(window, MapCheck(max, window, counters, r).0, done + [r])
    ensures MapCheck(max, window, counters, r).1 <==> Count(window, done, KeyOf(window, r)) < max
  {
    var after, more := MapCheck(max, window, counters, r).0, done + [r];
    assert more[..|done|] == done;
    forall k: Key ensures (if k in after then after[k] else 0) == Count(window, more, k) {
      assert (if k in counters then counters[k] else 0) == Count(window, done, k);
    }
  }

  lemma {:induction false} RunFrom(max: int, window: nat, counters: map<Key, nat>, done: seq<Request>,
                                   rs: seq<Request>, i: nat)
    requires window > 0 && NonNegative(done) && NonNegative(rs) && Counts(window, counters, done) && i < |rs|
    ensures |MapRun(max, window, counters, rs)| == |rs|
    ensures NonNegative(done + rs)
    ensures MapRun(max, window, counters, rs)[i] <==> Admitted(max, window, done + rs, |done| + i)
    decreases |rs|
  {
    hide Counts, MapCheck, Count, KeyOf;
    var after, more := MapCheck(max, window, counters, rs[0]).0, done + [rs[0]];
    CheckCounts(max, window, counters, done, rs[0]);
    assert more + rs[1..] == done + rs;
    if |rs| > 1 {
      RunFrom(max, window, after, more, rs[1..], if i > 0 then i - 1 else 0);
    }
    if i == 0 {
      assert (done + rs)[..|done|] == done;
    }
  }

  /** The limiter's decisions, request by request. */
  lemma DecisionsExact(max: int, window: nat, rs: seq<Request>, i: nat)
    requires window > 0 && NonNegative(rs) && i < |rs|
    ensures |MapRun(max, window, map[], rs)| == |rs|
    ensures MapRun(max, window, map[], rs)[i] <==> Admitted(max, window, rs, i)
  {
    RunFrom(max, window, map[], [], rs, i);
    assert [] + rs == rs;
  }

  /** Requests admitted under one key. */
  function AdmittedIn(max: int, window: nat, rs: seq<Request>, key: Key): nat
    requires window > 0 && NonNegative(rs)
  {
    if rs == [] then 0
    else
      var n := |rs| - 1;
      AdmittedIn(max, window, rs[..n], key)
        + (if KeyOf(window, rs[n]) == key && Admitted(max, window, rs, n) then 1 else 0)
  }

  /** A window admits its first `max` requests and no more. */
  lemma {:induction false} WindowBound(max: nat, window: nat, rs: seq<Request>, key: Key)
    requires window > 0 && NonNegative(rs)
    ensures AdmittedIn(max, window, rs, key)
         == if Count(window, rs, key) <= max then Count(window, rs, key) else max
  {
    if rs != [] {
      WindowBound(max, window, rs[..|rs| - 1], key);
    }
  }

  /** Requests of one principal admitted between two moments, both included. */
  function AdmittedBetween(max: int, window: nat, rs: seq<Request>, principal: string, from: real, to: real): nat
    requires window > 0 && NonNegative(rs)
  {
    if rs == [] then 0
    else
      var n := |rs| - 1;
      AdmittedBetween(max, window, rs[..n], principal, from, to)
        + (if rs[n].principal == principal && from <= rs[n].at <= to && Admitted(max, window, rs, n) then 1 else 0)
  }

  lemma {:induction false} BetweenTwoWindows(max: nat, window: nat, rs: seq<Request>, principal: string, from: real)
    requires window > 0 && NonNegative(rs) && from >= 0.0
    ensures var start := WindowStart(window, from);
      AdmittedBetween(max, window, rs, principal, from, from + window as real)
        <= AdmittedIn(max, window, rs, Key(principal, start))
           + AdmittedIn(max, window, rs, Key(principal, start + window))
  {
    if rs != [] {
      var last := rs[|rs| - 1];
      BetweenTwoWindows(max, window, rs[..|rs| - 1], principal, from);
      if from <= last.at <= from + window as real {
        WindowShift(window, from);
        WindowsApart(window, from, last.at);
        WindowsApart(window, last.at, from + window as real);
      }
    }
  }

  /** In any interval as long as a window, at most twice `max` requests are admitted. */
  lemma IntervalBound(max: nat, window: nat, rs: seq<Request>, principal: string, from: real)
    requires window > 0 && NonNegative(rs) && from >= 0.0
    ensures AdmittedBetween(max, window, rs, principal, from, from + window as real) <= 2 * max
  {
    var start := WindowStart(window, from);
    BetweenTwoWindows(max, window, rs, principal, from);
    WindowBound(max, window, rs, Key(principal, start));
    WindowBound(max, window, rs, Key(principal, start + window));
  }

  lemma {:induction false} CountConcat(window: nat, a: seq<Request>, b: seq<Request>, key: Key)
    requires window > 0 && NonNegative(a) && NonNegative(b)
    ensures NonNegative(a + b) && Count(window, a + b, key) == Count(window, a, key) + Count(window, b, key)
    decreases |b|
  {
    if b == [] {
      assert a + b == a;
    } else {
      assert (a + b)[..|a + b| - 1] == a + b[..|b| - 1];
      CountConcat(window, a, b[..|b| - 1], key);
    }
  }

  lemma {:induction false} CountSame(window: nat, rs: seq<Request>, r: Request, key: Key)
    requires window > 0 && r.at >= 0.0 && (forall i | 0 <= i < |rs| :: rs[i] == r)
    ensures Count(window, rs, key) == if KeyOf(window, r) == key then |rs| else 0
    decreases |rs|
  {
    if rs != [] {
      CountSame(window, rs[..|rs| - 1], r, key);
    }
  }

  lemma {:induction false} AllAdmitted(max: nat, window: nat, rs: seq<Request>, principal: string, from: real, to: real)
    requires window > 0 && NonNegative(rs)
    requires forall i | 0 <= i < |rs| ::
      rs[i].principal == principal && from <= rs[i].at <= to && Admitted(max, window, rs, i)
    ensures AdmittedBetween(max, window, rs, principal, from, to) == |rs|
    decreases |rs|
  {
    if rs != [] {
      var n := |rs| - 1;
      forall i | 0 <= i < n ensures Admitted(max, window, rs[..n], i) {
        assert rs[..n][..i] == rs[..i];
      }
      AllAdmitted(max, window, rs[..n], principal, from, to);
    }
  }

  /** `max` requests in the last second of the first window, and `max` as the second begins. */
  function Burst(max: nat, window: nat, principal: string): (rs: seq<Request>)
    requires window > 0
    ensures Monotone(rs)
  {
    seq(max, i => Request(principal, (window - 1) as real)) + seq(max, i => Request(principal, window as real))
  }

  lemma BurstParts(max: nat, window: nat, principal: string)
    requires window > 0
    ensures var late, early := Request(principal, (window - 1) as real), Request(principal, window as real);
      var rs := Burst(max, window, principal);
      && |rs| == 2 * max && KeyOf(window, late) != KeyOf(window, early)
      && (forall i | 0 <= i < max :: rs[i] == late) && (forall i | max <= i < 2 * max :: rs[i] == early)
  {
    var late, early := Request(principal, (window - 1) as real), Request(principal, window as real);
    assert late.at.Floor == window - 1 && early.at.Floor == window;
    QuotientIs(window - 1, window, 0);
    QuotientIs(window, window, 1);
  }

  lemma BurstAdmitted(max: nat, window: nat, principal: string, i: nat)
    requires window > 0 && i < 2 * max
    ensures Admitted(max, window, Burst(max, window, principal), i)
  {
    hide Burst, KeyOf, Count;
    BurstParts(max, window, principal);
    var rs := Burst(max, window, principal);
    if i < max {
      CountSame(window, rs[..i], rs[0], KeyOf(window, rs[i]));
    } else {
      assert rs[..i] == rs[..max] + rs[max..i];
      CountConcat(window, rs[..max], rs[max..i], KeyOf(window, rs[i]));
      CountSame(window, rs[..max], rs[0], KeyOf(window, rs[i]));
      CountSame(window, rs[max..i], rs[max], KeyOf(window, rs[i]));
    }
  }

  /** The bound is met: a burst at each side of a window boundary is admitted in full. */
  lemma IntervalBoundMet(max: nat, window: nat, principal: string)
    requires window > 0
    ensures var from := (window - 1) as real;
      AdmittedBetween(max, window, Burst(max, window, principal), principal, from, from + window as real) == 2 * max
  {
    var rs := Burst(max, window, principal);
    forall i | 0 <= i < |rs| ensures Admitted(max, window, rs, i) {
      BurstAdmitted(max, window, principal, i);
    }
    AllAdmitted(max, window, rs, principal, (window - 1) as real, (window - 1) as real + window as real);
  }

  // ----- Principals do not affect each other -----

  function Own(rs: seq<Request>, principal: string): (r: seq<Request>)
    ensures NonNegative(rs) ==> NonNegative(r)
    decreases |rs|
  {
    if rs == [] then []
    else if rs[0].principal == principal then [rs[0]] + Own(rs[1..], principal)
    else Own(rs[1..], principal)
  }

  /** The decisions taken on one principal's requests, in order. */
  function OwnDecisions(rs: seq<Request>, decisions: seq<bool>, principal: string): seq<bool>
    requires |rs| == |decisions|
    decreases |rs|
  {
    if rs == [] then []
    else
      (if rs[0].principal == principal then [decisions[0]] else [])
        + OwnDecisions(rs[1..], decisions[1..], principal)
  }

  lemma {:induction false} RunLength(max: int, window: nat, counters: map<Key, nat>, rs: seq<Request>)
    requires window > 0 && NonNegative(rs)
    ensures |MapRun(max, window, counters, rs)| == |rs|
    decreases |rs|
  {
    if rs != [] {
      RunLength(max, window, MapCheck(max, window, counters, rs[0]).0, rs[1..]);
    }
  }

  ghost predicate SameFor(a: map<Key, nat>, b: map<Key, nat>, principal: string)
  {
    forall k: Key | k.principal == principal :: (k in a <==> k in b) && (k in a ==> a[k] == b[k])
  }

  lemma {:induction false} Independence(max: int, window: nat, a: map<Key, nat>, b: map<Key, nat>,
                                        rs: seq<Request>, principal: string)
    requires window > 0 && NonNegative(rs) && SameFor(a, b, principal)
    ensures |MapRun(max, window, a, rs)| == |rs|
    ensures OwnDecisions(rs, MapRun(max, window, a, rs), principal) == MapRun(max, window, b, Own(rs, principal))
    decreases |rs|
  {
    RunLength(max, window, a, rs);
    if rs != [] {
      var after := MapCheck(max, window, a, rs[0]).0;
      assert MapRun(max, window, a, rs)[1..] == MapRun(max, window, after, rs[1..]);
      if rs[0].principal == principal {
        var own := Own(rs, principal);
        assert own[1..] == Own(rs[1..], principal);
        Independence(max, window, after, MapCheck(max, window, b, rs[0]).0, rs[1..], principal);
      } else {
        Independence(max, window, after, b, rs[1..], principal);
      }
    }
  }

  /** A principal is decided as if no other principal existed. */
  lemma PrincipalsIndependent(max: int, window: nat, rs: seq<Request>, principal: string)
    requires window > 0 && NonNegative(rs)
    ensures |MapRun(max, window, map[], rs)| == |rs|
    ensures OwnDecisions(rs, MapRun(max, window, map[], rs), principal)
         == MapRun(max, window, map[], Own(rs, principal))
  {
    Independence(max, window, map[], map[], rs, principal);
  }
}
