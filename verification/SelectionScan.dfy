/**
 * What the decision scanner finds: genuine, disjoint, ordered regions, and exactly what it
 * makes of a text that opens a wrapper, closes one, or never closes it.
 */
module SelectionScan {
  import opened Wrappers
  import opened Selection

  // ----- Every find is a balanced region that parses, left to right without overlap -----

  ghost predicate Genuine(parse: Parser, text: string, fs: seq<Found>)
  {
    forall i | 0 <= i < |fs| ::
      && fs[i].lo < fs[i].hi <= |text|
      && Balanced(text[fs[i].lo..fs[i].hi])
      && parse(text[fs[i].lo..fs[i].hi]) == Some(JObject(fs[i].fields))
  }

  ghost predicate Ordered(fs: seq<Found>, from: nat)
  {
    && (forall i | 0 <= i < |fs| :: from <= fs[i].lo)
    && (forall i, j | 0 <= i < j < |fs| :: fs[i].hi <= fs[j].lo)
  }

  lemma SubSlice(text: string, a: nat, b: nat, lo: nat, hi: nat)
    requires a <= b <= |text| && lo <= hi <= b - a
    ensures text[a..b][lo..hi] == text[a + lo..a + hi]
  {
    var s := text[a..b];
    assert forall i | 0 <= i < hi - lo :: s[lo..hi][i] == s[lo + i] == text[a + lo + i];
  }

  lemma GenuineWithin(parse: Parser, text: string, a: nat, b: nat, fs: seq<Found>)
    requires a <= b <= |text| && Genuine(parse, text[a..b], fs)
    ensures Genuine(parse, text, Shift(fs, a))
    ensures forall i | 0 <= i < |fs| :: Shift(fs, a)[i].hi <= b
  {
    var moved := Shift(fs, a);
    forall i | 0 <= i < |fs|
      ensures moved[i].hi <= b && text[moved[i].lo..moved[i].hi] == text[a..b][fs[i].lo..fs[i].hi]
    {
      SubSlice(text, a, b, fs[i].lo, fs[i].hi);
    }
  }

  lemma Join(parse: Parser, text: string, from: nat, mid: nat, fs: seq<Found>, gs: seq<Found>)
    requires Genuine(parse, text, fs) && Ordered(fs, from) && (forall i | 0 <= i < |fs| :: fs[i].hi <= mid)
    requires Genuine(parse, text, gs) && Ordered(gs, mid) && from <= mid
    ensures Genuine(parse, text, fs + gs) && Ordered(fs + gs, from)
  {
  }

  /** An open region: everything since its brace stays at depth 1 or more. */
  ghost predicate OpenSince(text: string, start: int, i: nat, st: Scan)
  {
    st.depth > 0 ==>
      && 0 <= start < i <= |text|
      && text[start] == '{'
      && Run(ZERO, text[start..i]) == st
      && Above(ZERO, text[start..i], i - start, 1)
  }

  lemma OpenExtends(text: string, start: int, i: nat, st: Scan)
    requires i < |text| && st.depth > 0 && OpenSince(text, start, i, st)
    ensures Run(ZERO, text[start..i + 1]) == Step(st, text[i])
    ensures Step(st, text[i]).depth > 0 ==> OpenSince(text, start, i + 1, Step(st, text[i]))
    ensures Step(st, text[i]).depth == 0 ==> Balanced(text[start..i + 1])
  {
    var s := text[start..i + 1];
    assert s == text[start..i] + [text[i]];
    RunSnoc(ZERO, text[start..i], text[i]);
    forall k | 0 < k <= i - start ensures Run(ZERO, s[..k]).depth >= 1 {
      assert s[..k] == text[start..i][..k];
    }
    assert s[..|s|] == s;
  }

  lemma OpenBegins(text: string, i: nat, st: Scan)
    requires i < |text| && st.depth == 0 && Step(st, text[i]).depth == 1
    ensures OpenSince(text, i, i + 1, Step(st, text[i]))
  {
    var s := text[i..i + 1];
    assert s == [text[i]] && s[..1] == s;
    assert Run(ZERO, s) == Run(Step(ZERO, text[i]), s[1..]);
  }

  lemma FromEarlier(fs: seq<Found>, from: nat, mid: nat)
    requires Ordered(fs, mid) && from <= mid
    ensures Ordered(fs, from)
  {
  }

  lemma {:induction false} ScanSound(parse: Parser, text: string, i: nat, st: Scan, start: int, budget: nat)
    requires i <= |text| && (st.depth > 0 ==> 0 <= start < i)
    requires OpenSince(text, start, i, st)
    ensures Genuine(parse, text, ScanFrom(parse, text, i, st, start, budget))
    ensures Ordered(ScanFrom(parse, text, i, st, start, budget), if st.depth > 0 then start else i)
    decreases budget, |text| - i + 1
  {
    hide Genuine, Ordered, ScanFrom, Region, Balanced, Run, Above;
    if i == |text| {
      EndSound(parse, text, st, start, budget);
    } else {
      var next := Step(st, text[i]);
      if st.depth == 1 && next.depth == 0 {
        OpenExtends(text, start, i, st);
        RegionSound(parse, text, start, i + 1, budget);
        ScanSound(parse, text, i + 1, next, -1, budget);
        var rest := ScanFrom(parse, text, i + 1, next, -1, budget);
        ScanCloses(parse, text, i, st, start, budget, rest);
        Join(parse, text, start, i + 1, Region(parse, text[start..i + 1], start, budget), rest);
      } else {
        if st.depth > 0 {
          OpenExtends(text, start, i, st);
        } else if next.depth == 1 {
          OpenBegins(text, i, st);
        }
        var begun := StartAfter(st, text[i], i, start);
        ScanSound(parse, text, i + 1, next, begun, budget);
        ScanGoesOn(parse, text, i, st, start, budget);
        FromEarlier(ScanFrom(parse, text, i, st, start, budget), if st.depth > 0 then start else i,
                    if next.depth > 0 then begun else i + 1);
      }
    }
  }

  lemma {:induction false} EndSound(parse: Parser, text: string, st: Scan, start: int, budget: nat)
    requires st.depth > 0 ==> 0 <= start < |text|
    ensures Genuine(parse, text, ScanFrom(parse, text, |text|, st, start, budget))
    ensures Ordered(ScanFrom(parse, text, |text|, st, start, budget), if st.depth > 0 then start else |text|)
    decreases budget, 0
  {
    if st.depth > 0 && budget > 0 {
      var inner := Objects(parse, text[start + 1..], budget - 1);
      assert text[start + 1..|text|] == text[start + 1..];
      InsideSound(parse, text, start + 1, |text|, budget - 1);
      ScanEnds(parse, text, st, start, budget, inner);
      FromEarlier(Shift(inner, start + 1), start, start + 1);
    }
  }

  ghost predicate Within(parse: Parser, text: string, a: nat, b: nat, fs: seq<Found>)
  {
    Genuine(parse, text, fs) && Ordered(fs, a) && forall i | 0 <= i < |fs| :: fs[i].hi <= b
  }

  lemma Widen(parse: Parser, text: string, a: nat, b: nat, fs: seq<Found>)
    requires 0 < a && Within(parse, text, a, b, fs)
    ensures Within(parse, text, a - 1, b + 1, fs)
  {
  }

  /** A region that is an object is its own only find. */
  lemma ObjectWithin(parse: Parser, text: string, a: nat, b: nat, budget: nat, fields: seq<Field>)
    requires a <= b <= |text| && Balanced(text[a..b]) && parse(text[a..b]) == Some(JObject(fields))
    ensures Within(parse, text, a, b, Region(parse, text[a..b], a, budget))
  {
  }

  /** A region searched inside has the finds of its inside. */
  lemma InsideWithin(parse: Parser, text: string, a: nat, b: nat, budget: nat, inner: seq<Found>)
    requires a + 2 < b <= |text| && budget > 0 && inner == Objects(parse, text[a + 1..b - 1], budget - 1)
    requires !(parse(text[a..b]).Some? && parse(text[a..b]).value.JObject?)
    requires Within(parse, text, a + 1, b - 1, Shift(inner, a + 1))
    ensures Within(parse, text, a, b, Region(parse, text[a..b], a, budget))
  {
    SubSlice(text, a, b, 1, b - a - 1);
    RegionSearched(parse, text[a..b], a, budget, inner);
    Widen(parse, text, a + 1, b - 1, Shift(inner, a + 1));
  }

  lemma RegionDropped(parse: Parser, text: string, a: nat, b: nat, budget: nat)
    requires a <= b <= |text| && (budget == 0 || b <= a + 2)
    requires !(parse(text[a..b]).Some? && parse(text[a..b]).value.JObject?)
    ensures Within(parse, text, a, b, Region(parse, text[a..b], a, budget))
  {
  }

  lemma {:induction false} RegionSound(parse: Parser, text: string, a: nat, b: nat, budget: nat)
    requires a <= b <= |text| && Balanced(text[a..b])
    ensures Within(parse, text, a, b, Region(parse, text[a..b], a, budget))
    decreases budget, 0
  {
    var parsed := parse(text[a..b]);
    if parsed.Some? && parsed.value.JObject? {
      ObjectWithin(parse, text, a, b, budget, parsed.value.fields);
    } else if budget > 0 && b > a + 2 {
      InsideSound(parse, text, a + 1, b - 1, budget - 1);
      InsideWithin(parse, text, a, b, budget, Objects(parse, text[a + 1..b - 1], budget - 1));
    } else {
      RegionDropped(parse, text, a, b, budget);
    }
  }

  lemma {:induction false} InsideSound(parse: Parser, text: string, a: nat, b: nat, budget: nat)
    requires a <= b <= |text|
    ensures Within(parse, text, a, b, Shift(Objects(parse, text[a..b], budget), a))
    decreases budget, b - a + 3
  {
    ObjectsSound(parse, text[a..b], budget);
    GenuineWithin(parse, text, a, b, Objects(parse, text[a..b], budget));
  }

  /** The finds are balanced, parse as the objects reported, and never overlap. */
  lemma {:induction false} ObjectsSound(parse: Parser, text: string, budget: nat)
    ensures Genuine(parse, text, Objects(parse, text, budget))
    ensures Ordered(Objects(parse, text, budget), 0)
    decreases budget, |text| + 2
  {
    ScanSound(parse, text, 0, ZERO, -1, budget);
  }

  // ----- Stretches of text the scan passes over -----

  /** No brace of `s` stands outside a string literal. */
  predicate Quiet(lex: Lex, s: string)
    decreases |s|
  {
    s == "" || (
      && (lex == Outside ==> s[0] != '{' && s[0] != '}')
      && Quiet(Step(Scan(lex, 0), s[0]).lex, s[1..]))
  }

  function EndLex(lex: Lex, s: string): Lex
    decreases |s|
  {
    if s == "" then lex else EndLex(Step(Scan(lex, 0), s[0]).lex, s[1..])
  }

  /** Text that may precede a brace: it ends every string it begins, and has no brace. */
  predicate Neutral(s: string)
  {
    Quiet(Outside, s) && EndLex(Outside, s) == Outside
  }

  /** No brace of `s` opens outside a string literal; stray closing braces are passed over. */
  predicate Unopened(lex: Lex, s: string)
    decreases |s|
  {
    s == "" || ((lex == Outside ==> s[0] != '{') && Unopened(Step(Scan(lex, 0), s[0]).lex, s[1..]))
  }

  /** Text that may precede an object that stands by itself. */
  predicate Harmless(s: string)
  {
    Unopened(Outside, s) && EndLex(Outside, s) == Outside
  }

  lemma {:induction false} QuietUnopened(lex: Lex, s: string)
    requires Quiet(lex, s)
    ensures Unopened(lex, s)
    decreases |s|
  {
    if s != "" {
      QuietUnopened(Step(Scan(lex, 0), s[0]).lex, s[1..]);
    }
  }

  lemma {:induction false} QuietRun(lex: Lex, depth: nat, s: string)
    requires Quiet(lex, s)
    ensures Run(Scan(lex, depth), s) == Scan(EndLex(lex, s), depth)
    ensures Above(Scan(lex, depth), s, |s|, depth)
    decreases |s|
  {
    if s != "" {
      var next := Step(Scan(lex, depth), s[0]);
      QuietRun(next.lex, depth, s[1..]);
      forall k | 0 < k <= |s| ensures Run(Scan(lex, depth), s[..k]).depth >= depth {
        assert s[..k][1..] == s[1..][..k - 1];
        assert s[1..][..0] == "";
      }
    }
  }

  lemma AboveConcat(st: Scan, a: string, b: string, floor: nat)
    requires Above(st, a, |a|, floor) && Above(Run(st, a), b, |b|, floor)
    ensures Above(st, a + b, |a + b|, floor)
  {
    forall k | 0 < k <= |a + b| ensures Run(st, (a + b)[..k]).depth >= floor {
      if k <= |a| {
        assert (a + b)[..k] == a[..k];
      } else {
        assert (a + b)[..k] == a + b[..k - |a|];
        RunConcat(st, a, b[..k - |a|]);
      }
    }
  }

  function Up(st: Scan, more: nat): Scan
  {
    st.(depth := st.depth + more)
  }

  lemma RunPrefix(st: Scan, s: string, k: nat)
    requires 0 < k <= |s|
    ensures Run(st, s[..k]) == Run(Step(st, s[0]), s[1..][..k - 1])
  {
    assert s[..k][1..] == s[1..][..k - 1];
  }

  lemma AboveTail(st: Scan, s: string, n: nat, floor: nat)
    requires 0 < n <= |s| && Above(st, s, n, floor)
    ensures Step(st, s[0]).depth >= floor
    ensures Above(Step(st, s[0]), s[1..], n - 1, floor)
  {
    assert s[..1][1..] == "" && Run(st, s[..1]).depth >= floor;
    forall k | 0 < k <= n - 1 ensures Run(Step(st, s[0]), s[1..][..k]).depth >= floor {
      assert s[..k + 1][1..] == s[1..][..k];
    }
  }

  /** Away from depth 0 the scan does not depend on how deep it started. */
  lemma {:induction false} Lift(st: Scan, d: nat, s: string, n: nat)
    requires n <= |s| && st.depth > 0 && (n > 0 ==> Above(st, s, n - 1, 1))
    ensures Run(Up(st, d), s[..n]) == Up(Run(st, s[..n]), d)
    decreases n
  {
    if n > 0 {
      var tail := s[1..];
      assert s[..n] == [s[0]] + tail[..n - 1] && s[..n][1..] == tail[..n - 1];
      if n > 1 {
        AboveTail(st, s, n - 1, 1);
        Lift(Step(st, s[0]), d, s[1..], n - 1);
      }
    }
  }

  /** A balanced region is passed over at any depth, without going below it. */
  lemma BalancedAnywhere(d: nat, s: string)
    requires Balanced(s)
    ensures Run(Scan(Outside, d), s) == Scan(Outside, d)
    ensures Above(Scan(Outside, d), s, |s|, d)
    ensures Above(Scan(Outside, d), s, |s| - 1, d + 1)
  {
    forall k | 0 < k <= |s|
      ensures Run(Scan(Outside, d), s[..k]) == Up(Run(ZERO, s[..k]), d)
    {
      BalancedPrefix(d, s, k);
    }
    assert s[..|s|] == s;
  }

  lemma BalancedPrefix(d: nat, s: string, k: nat)
    requires Balanced(s) && 0 < k <= |s|
    ensures Run(Scan(Outside, d), s[..k]) == Up(Run(ZERO, s[..k]), d)
  {
    RunPrefix(ZERO, s, k);
    RunPrefix(Scan(Outside, d), s, k);
    if k > 1 {
      AboveTail(ZERO, s, |s| - 1, 1);
    }
    Lift(Scan(Outside, 1), d, s[1..], k - 1);
  }

  lemma {:induction false} SkipUnopened(parse: Parser, text: string, i: nat, j: nat, lex: Lex, budget: nat)
    requires i <= j <= |text| && Unopened(lex, text[i..j])
    ensures ScanFrom(parse, text, i, Scan(lex, 0), -1, budget)
         == ScanFrom(parse, text, j, Scan(EndLex(lex, text[i..j]), 0), -1, budget)
    decreases j - i
  {
    if i < j {
      assert text[i..j][1..] == text[i + 1..j];
      SkipUnopened(parse, text, i + 1, j, Step(Scan(lex, 0), text[i]).lex, budget);
    }
  }

  lemma {:induction false} SkipInside(parse: Parser, text: string, i: nat, j: nat, st: Scan, start: int, budget: nat)
    requires 0 <= start < i <= j <= |text| && st.depth > 0 && Above(st, text[i..j], j - i, 1)
    ensures Run(st, text[i..j]).depth > 0
    ensures ScanFrom(parse, text, i, st, start, budget)
         == ScanFrom(parse, text, j, Run(st, text[i..j]), start, budget)
    decreases j - i
  {
    if i < j {
      assert text[i..j][1..] == text[i + 1..j];
      AboveTail(st, text[i..j], j - i, 1);
      SkipInside(parse, text, i + 1, j, Step(st, text[i]), start, budget);
    }
  }

  // ----- The two shapes of a text whose first brace is a region or a wrapper -----

  /** From its brace the scan goes through a balanced region and hands it over. */
  lemma RegionHandled(parse: Parser, text: string, a: nat, b: nat, budget: nat)
    requires a <= b <= |text| && Balanced(text[a..b])
    ensures ScanFrom(parse, text, a, ZERO, -1, budget)
         == Region(parse, text[a..b], a, budget) + ScanFrom(parse, text, b, ZERO, -1, budget)
  {
    var region, one := text[a..b], Scan(Outside, 1);
    assert text[a] == region[0] && text[b - 1] == region[|region| - 1];
    SubSlice(text, a, b, 1, b - a - 1);
    BodyRun(region);
    BodyScanned(parse, text, a, b - 1, budget, Run(one, text[a + 1..b - 1]));
    ScanCloses(parse, text, b - 1, Run(one, text[a + 1..b - 1]), a, budget,
               ScanFrom(parse, text, b, ZERO, -1, budget));
  }

  /** From an opening brace to the end `n` of a stretch that stays inside its region. */
  lemma BodyScanned(parse: Parser, text: string, a: nat, n: nat, budget: nat, st: Scan)
    requires a < n <= |text| && text[a] == '{' && Above(Scan(Outside, 1), text[a + 1..n], n - a - 1, 1)
    requires st == Run(Scan(Outside, 1), text[a + 1..n])
    ensures st.depth > 0
    ensures ScanFrom(parse, text, a, ZERO, -1, budget) == ScanFrom(parse, text, n, st, a, budget)
  {
    ScanGoesOn(parse, text, a, ZERO, -1, budget);
    SkipInside(parse, text, a + 1, n, Scan(Outside, 1), a, budget);
  }

  /** A harmless prefix, then a balanced region: the region is handled first. */
  lemma RegionFirst(parse: Parser, p: string, region: string, rest: string, budget: nat)
    requires Harmless(p) && Balanced(region)
    ensures var text := p + region + rest;
      Objects(parse, text, budget)
        == Region(parse, region, |p|, budget)
           + ScanFrom(parse, text, |p| + |region|, ZERO, -1, budget)
  {
    var text := p + region + rest;
    assert text[0..|p|] == p && text[|p|..|p| + |region|] == region;
    SkipUnopened(parse, text, 0, |p|, Outside, budget);
    RegionHandled(parse, text, |p|, |p| + |region|, budget);
  }

  lemma BodyRun(region: string)
    requires Balanced(region)
    ensures var body := region[1..|region| - 1];
      && Above(Scan(Outside, 1), body, |body|, 1)
      && Run(Scan(Outside, 1), body).depth == 1
      && Step(Run(Scan(Outside, 1), body), region[|region| - 1]) == ZERO
  {
    var one, n := Scan(Outside, 1), |region| - 1;
    var body := region[1..n];
    AboveTail(ZERO, region, n, 1);
    forall k | 0 < k <= |body| ensures Run(one, body[..k]).depth >= 1 {
      assert body[..k] == region[1..][..k];
    }
    assert region[..n][1..] == body && Run(ZERO, region[..n]) == Run(one, body);
    assert region == region[..n] + [region[n]];
    RunSnoc(ZERO, region[..n], region[n]);
  }

  /** A brace that is never closed: only the text after it is searched, at one less budget. */
  lemma WrapperOpen(parse: Parser, p: string, inner: string, budget: nat)
    requires Harmless(p) && Above(Scan(Outside, 1), inner, |inner|, 1)
    ensures Objects(parse, p + "{" + inner, budget)
         == if budget == 0 then [] else Shift(Objects(parse, inner, budget - 1), |p| + 1)
  {
    var text, a := p + "{" + inner, |p|;
    assert text[0..a] == p && text[a] == '{' && text[a + 1..] == inner && text[a + 1..|text|] == inner;
    SkipUnopened(parse, text, 0, a, Outside, budget);
    var st := Run(Scan(Outside, 1), inner);
    BodyScanned(parse, text, a, |text|, budget, st);
    ScanEnds(parse, text, st, a, budget, if budget == 0 then [] else Objects(parse, inner, budget - 1));
  }
}
