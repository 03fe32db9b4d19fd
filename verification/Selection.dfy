/**
 * The decision scanner: `_iter_json_objects` and `parse_decision`.
 *
 * A text is scanned for balanced `{...}` regions, respecting string literals and
 * escapes.  A region that does not parse as an object is searched again from the inside,
 * and so is the tail of a region that is never closed; at most `budget` such descents
 * are nested.  JSON parsing itself is a parameter: `parse` is any function from texts to
 * optional values.
 */
module Selection {
  import opened Wrappers

  // ----- JSON values and the decisions read from them -----

  /** A number keeps its text, and whether Python counts the parsed number as false. */
  datatype Json =
    | JNull
    | JBool(b: bool)
    | JNumber(text: string, zero: bool)
    | JString(s: string)
    | JArray(items: seq<Json>)
    | JObject(fields: seq<Field>)

  datatype Field = Field(key: string, value: Json)

  datatype Decision =
    | Final(answer: string)
    | Tool(name: string, arguments: seq<Field>)

  /** `dict.get`: the last binding of a key wins, and an absent key reads as null. */
  function Get(fields: seq<Field>, key: string): Json
  {
    if fields == [] then JNull
    else if fields[|fields| - 1].key == key then fields[|fields| - 1].value
    else Get(fields[..|fields| - 1], key)
  }

  predicate Truthy(j: Json)
  {
    match j
    case JNull => false
    case JBool(b) => b
    case JNumber(_, zero) => !zero
    case JString(s) => s != ""
    case JArray(items) => items != []
    case JObject(fields) => fields != []
  }

  function DecisionOf(fields: seq<Field>): Option<Decision>
  {
    var action := Get(fields, "action");
    if action == JString("tool") then
      var name := if Truthy(Get(fields, "tool")) then Get(fields, "tool") else Get(fields, "tool_name");
      if name.JString? && name.s != "" then
        var arguments := Get(fields, "arguments");
        Some(Tool(name.s, if arguments.JObject? then arguments.fields else []))
      else None
    else if action == JString("final") then
      var answer := Get(fields, "answer");
      if answer.JString? then Some(Final(answer.s)) else None
    else None
  }

  // ----- Lexical state -----

  datatype Lex = Outside | InString | Escaped

  datatype Scan = Scan(lex: Lex, depth: nat)

  const ZERO := Scan(Outside, 0)

  function Step(st: Scan, ch: char): Scan
  {
    match st.lex
    case Escaped => st.(lex := InString)
    case InString =>
      if ch == '\\' then st.(lex := Escaped)
      else if ch == '"' then st.(lex := Outside)
      else st
    case Outside =>
      if ch == '"' then st.(lex := InString)
      else if ch == '{' then st.(depth := st.depth + 1)
      else if ch == '}' && st.depth > 0 then st.(depth := st.depth - 1)
      else st
  }

  function Run(st: Scan, s: string): Scan
    decreases |s|
  {
    if s == "" then st else Run(Step(st, s[0]), s[1..])
  }

  lemma {:induction false} RunConcat(st: Scan, a: string, b: string)
    ensures Run(st, a + b) == Run(Run(st, a), b)
    decreases |a|
  {
    if a == "" {
      assert a + b == b;
    } else {
      RunConcat(Step(st, a[0]), a[1..], b);
      assert (a + b)[1..] == a[1..] + b;
    }
  }

  lemma RunSnoc(st: Scan, s: string, ch: char)
    ensures Run(st, s + [ch]) == Step(Run(st, s), ch)
  {
    RunConcat(st, s, [ch]);
  }

  /** The depth after each of the first `n` characters of `s` is at least `floor`. */
  predicate Above(st: Scan, s: string, n: nat, floor: nat)
    requires n <= |s|
  {
    forall k | 0 < k <= n :: Run(st, s[..k]).depth >= floor
  }

  /** One `{...}` region: the brace opened by the first character closes at the last. */
  predicate Balanced(s: string)
  {
    && |s| >= 2
    && s[0] == '{'
    && Run(ZERO, s) == ZERO
    && Above(ZERO, s, |s| - 1, 1)
  }

  // ----- The scan as a function -----

  /** An object found at `text[lo..hi]`. */
  datatype Found = Found(lo: nat, hi: nat, fields: seq<Field>)

  function Shift(fs: seq<Found>, off: nat): (r: seq<Found>)
    ensures |r| == |fs|
    ensures forall i | 0 <= i < |fs| :: r[i] == Found(fs[i].lo + off, fs[i].hi + off, fs[i].fields)
  {
    seq(|fs|, i requires 0 <= i < |fs| => Found(fs[i].lo + off, fs[i].hi + off, fs[i].fields))
  }

  type Parser = string -> Option<Json>

  function Objects(parse: Parser, text: string, budget: nat): seq<Found>
    decreases budget, |text| + 1
  {
    ScanFrom(parse, text, 0, ZERO, -1, budget)
  }

  /** What the scan still finds from position `i` on; `start` is the open region's brace. */
  function ScanFrom(parse: Parser, text: string, i: nat, st: Scan, start: int, budget: nat): seq<Found>
    requires i <= |text|
    requires st.depth > 0 ==> 0 <= start < i
    decreases budget, |text| - i
  {
    if i == |text| then
      if st.depth > 0 && budget > 0
      then Shift(Objects(parse, text[start + 1..], budget - 1), start + 1)
      else []
    else
      var next := Step(st, text[i]);
      if st.depth == 0 && next.depth == 1 then
        ScanFrom(parse, text, i + 1, next, i, budget)
      else if st.depth == 1 && next.depth == 0 then
        Region(parse, text[start..i + 1], start, budget)
          + ScanFrom(parse, text, i + 1, next, -1, budget)
      else
        ScanFrom(parse, text, i + 1, next, start, budget)
  }

  function Region(parse: Parser, candidate: string, at: nat, budget: nat): seq<Found>
    decreases budget, 0
  {
    var parsed := parse(candidate);
    if parsed.Some? && parsed.value.JObject? then
      [Found(at, at + |candidate|, parsed.value.fields)]
    else if budget > 0 && |candidate| > 2 then
      Shift(Objects(parse, candidate[1..|candidate| - 1], budget - 1), at + 1)
    else []
  }

  // ----- The scan, one step at a time -----

  /** The end of the text inside an open region, given what its inside yields. */
  lemma ScanEnds(parse: Parser, text: string, st: Scan, start: int, budget: nat, inner: seq<Found>)
    requires st.depth > 0 ==> 0 <= start < |text|
    requires st.depth > 0 && budget > 0 ==> inner == Objects(parse, text[start + 1..], budget - 1)
    ensures ScanFrom(parse, text, |text|, st, start, budget)
         == if st.depth > 0 && budget > 0 then Shift(inner, start + 1) else []
  {
  }

  /** A character that closes a region, given what the scan finds after it. */
  lemma ScanCloses(parse: Parser, text: string, i: nat, st: Scan, start: int, budget: nat, rest: seq<Found>)
    requires i < |text| && 0 <= start < i && st.depth == 1 && Step(st, text[i]).depth == 0
    requires rest == ScanFrom(parse, text, i + 1, Step(st, text[i]), -1, budget)
    ensures ScanFrom(parse, text, i, st, start, budget)
         == Region(parse, text[start..i + 1], start, budget) + rest
  {
  }

  /** Where the open region begins after one more character that closes none. */
  function StartAfter(st: Scan, ch: char, i: nat, start: int): int
  {
    if st.depth == 0 && Step(st, ch).depth == 1 then i else start
  }

  lemma ScanGoesOn(parse: Parser, text: string, i: nat, st: Scan, start: int, budget: nat)
    requires i < |text| && (st.depth > 0 ==> 0 <= start < i)
    requires !(st.depth == 1 && Step(st, text[i]).depth == 0)
    ensures ScanFrom(parse, text, i, st, start, budget)
         == ScanFrom(parse, text, i + 1, Step(st, text[i]), StartAfter(st, text[i], i, start), budget)
  {
  }

  lemma RegionSearched(parse: Parser, candidate: string, at: nat, budget: nat, inner: seq<Found>)
    requires !(parse(candidate).Some? && parse(candidate).value.JObject?) && budget > 0 && |candidate| > 2
    requires inner == Objects(parse, candidate[1..|candidate| - 1], budget - 1)
    ensures Region(parse, candidate, at, budget) == Shift(inner, at + 1)
  {
  }

  // ----- The scan as the loop the program runs -----

  function Contents(fs: seq<Found>): (r: seq<seq<Field>>)
    ensures |r| == |fs|
    ensures forall i | 0 <= i < |fs| :: r[i] == fs[i].fields
  {
    seq(|fs|, i requires 0 <= i < |fs| => fs[i].fields)
  }

  predicate LexIs(lex: Lex, inString: bool, escaped: bool)
  {
    match lex
    case Outside => !inString && !escaped
    case InString => inString && !escaped
    case Escaped => inString && escaped
  }

  lemma ContentsConcat(a: seq<Found>, b: seq<Found>)
    ensures Contents(a + b) == Contents(a) + Contents(b)
  {
  }

  lemma ContentsShift(fs: seq<Found>, off: nat)
    ensures Contents(Shift(fs, off)) == Contents(fs)
  {
  }

  /** `objs` and what the scan still finds from `i` on make up what the whole text yields. */
  ghost predicate Pending(parse: Parser, text: string, i: nat, st: Scan, start: int, budget: nat,
                          objs: seq<seq<Field>>)
    requires i <= |text| && (st.depth > 0 ==> 0 <= start < i)
  {
    Contents(Objects(parse, text, budget)) == objs + Contents(ScanFrom(parse, text, i, st, start, budget))
  }

  lemma PendingBegins(parse: Parser, text: string, budget: nat)
    ensures Pending(parse, text, 0, ZERO, -1, budget, [])
  {
  }

  lemma PendingGoesOn(parse: Parser, text: string, i: nat, st: Scan, start: int, budget: nat, objs: seq<seq<Field>>)
    requires i < |text| && (st.depth > 0 ==> 0 <= start < i)
    requires !(st.depth == 1 && Step(st, text[i]).depth == 0)
    requires Pending(parse, text, i, st, start, budget, objs)
    ensures Pending(parse, text, i + 1, Step(st, text[i]), StartAfter(st, text[i], i, start), budget, objs)
  {
    ScanGoesOn(parse, text, i, st, start, budget);
  }

  lemma PendingCloses(parse: Parser, text: string, i: nat, st: Scan, start: int, budget: nat, objs: seq<seq<Field>>)
    requires i < |text| && 0 <= start < i && st.depth == 1 && Step(st, text[i]).depth == 0
    requires Pending(parse, text, i, st, start, budget, objs)
    ensures Pending(parse, text, i + 1, Step(st, text[i]), -1, budget,
                    objs + Contents(Region(parse, text[start..i + 1], start, budget)))
  {
    var rest := ScanFrom(parse, text, i + 1, Step(st, text[i]), -1, budget);
    ScanCloses(parse, text, i, st, start, budget, rest);
    ContentsConcat(Region(parse, text[start..i + 1], start, budget), rest);
  }

  lemma PendingEnds(parse: Parser, text: string, st: Scan, start: int, budget: nat, objs: seq<seq<Field>>)
    requires st.depth > 0 ==> 0 <= start < |text|
    requires Pending(parse, text, |text|, st, start, budget, objs)
    ensures Contents(Objects(parse, text, budget)) ==
      objs + if st.depth > 0 && budget > 0 then Contents(Objects(parse, text[start + 1..], budget - 1)) else []
  {
    if st.depth > 0 && budget > 0 {
      var inner := Objects(parse, text[start + 1..], budget - 1);
      ScanEnds(parse, text, st, start, budget, inner);
      ContentsShift(inner, start + 1);
    }
  }

  /** `b * n`, spelled as a sum to keep the loop's accounting linear. */
  ghost function Times(b: nat, n: nat): nat
  {
    if n == 0 then 0 else b + Times(b, n - 1)
  }

  lemma {:induction false} TimesIsProduct(b: nat, n: nat)
    ensures Times(b, n) == b * n
  {
    if n > 0 {
      TimesIsProduct(b, n - 1);
    }
  }

  lemma {:induction false} TimesMore(b: nat, n: nat)
    ensures Times(b + 1, n) == n + Times(b, n)
  {
    if n > 0 {
      TimesMore(b, n - 1);
    }
  }

  lemma {:induction false} TimesSum(b: nat, x: nat, y: nat)
    ensures Times(b, x) + Times(b, y) == Times(b, x + y)
  {
    if y > 0 {
      TimesSum(b, x, y - 1);
    }
  }

  /** Work within one region fits in the share of its characters. */
  lemma TimesFits(b: nat, x: nat, inner: nat, y: nat, work: nat)
    requires x + inner <= y && work <= Times(b, inner)
    ensures Times(b, x) + work <= Times(b, y)
  {
    hide Times;
    TimesSum(b, x, inner);
    TimesSum(b, x + inner, y - x - inner);
  }

  /** Parse one balanced region; look inside it when it is not an object. */
  method ParseRegion(parse: Parser, candidate: string, at: nat, budget: nat)
    returns (objs: seq<seq<Field>>, ghost work: nat)
    ensures objs == Contents(Region(parse, candidate, at, budget))
    ensures work <= Times(budget, |candidate|)
    decreases budget, 0
  {
    objs, work := [], 0;
    var parsed := parse(candidate);
    if parsed.Some? && parsed.value.JObject? {
      objs := [parsed.value.fields];
    } else if budget > 0 && |candidate| > 2 {
      objs, work := IterJsonObjects(parse, candidate[1..|candidate| - 1], budget - 1);
      TimesFits(budget, 0, |candidate| - 2, |candidate|, work);
    }
  }

  /** `scanned` counts the loop iterations of this call and of every call below it. */
  method IterJsonObjects(parse: Parser, text: string, budget: nat)
    returns (objs: seq<seq<Field>>, ghost scanned: nat)
    ensures objs == Contents(Objects(parse, text, budget))
    ensures scanned <= Times(budget + 1, |text|)
    decreases budget, 1
  {
    hide Pending, ScanFrom;
    objs, scanned := [], 0;
    var depth: nat, start: int := 0, -1;
    var inString, escaped := false, false;
    ghost var st := ZERO;
    PendingBegins(parse, text, budget);
    for i := 0 to |text|
      invariant depth == st.depth && LexIs(st.lex, inString, escaped)
      invariant if depth > 0 then 0 <= start < i else start == -1
      invariant Pending(parse, text, i, st, start, budget, objs)
      invariant scanned <= i + Times(budget, if depth > 0 then start else i)
    {
      var ch := text[i];
      scanned := scanned + 1;
      ghost var next := Step(st, ch);
      if inString {
        if escaped {
          escaped := false;
        } else if ch == '\\' {
          escaped := true;
        } else if ch == '"' {
          inString := false;
        }
        PendingGoesOn(parse, text, i, st, start, budget, objs);
      } else if ch == '"' {
        inString := true;
        PendingGoesOn(parse, text, i, st, start, budget, objs);
      } else if ch == '{' {
        PendingGoesOn(parse, text, i, st, start, budget, objs);
        if depth == 0 {
          start := i;
        }
        depth := depth + 1;
      } else if ch == '}' && depth > 0 {
        depth := depth - 1;
        if depth == 0 && start != -1 {
          PendingCloses(parse, text, i, st, start, budget, objs);
          var inner;
          ghost var work;
          inner, work := ParseRegion(parse, text[start..i + 1], start, budget);
          objs := objs + inner;
          TimesFits(budget, start, i + 1 - start, i + 1, work);
          scanned := scanned + work;
          start := -1;
        } else {
          PendingGoesOn(parse, text, i, st, start, budget, objs);
        }
      } else {
        PendingGoesOn(parse, text, i, st, start, budget, objs);
      }
      st := next;
    }
    PendingEnds(parse, text, st, start, budget, objs);
    if depth > 0 && start != -1 && budget > 0 {
      var inner;
      ghost var work;
      inner, work := IterJsonObjects(parse, text[start + 1..], budget - 1);
      objs := objs + inner;
      TimesFits(budget, start, |text| - start - 1, |text|, work);
      scanned := scanned + work;
    } else {
      TimesFits(budget, if depth > 0 then start else |text|, 0, |text|, 0);
    }
    TimesMore(budget, |text|);
  }

  // ----- Reading a decision out of a response -----

  const DEPTH_BUDGET: nat := 4

  function FirstDecision(objs: seq<seq<Field>>): Option<Decision>
  {
    if objs == [] then None
    else if DecisionOf(objs[0]).Some? then DecisionOf(objs[0])
    else FirstDecision(objs[1..])
  }

  /** The fallback for a text without a decision; both heuristics are parameters. */
  function Prose(looksLikeEnvelope: string -> bool, stripEnvelope: string -> string, text: string): Decision
  {
    Final(if looksLikeEnvelope(text) then stripEnvelope(text) else text)
  }

  function DecisionIn(parse: Parser, looksLikeEnvelope: string -> bool, stripEnvelope: string -> string,
                      text: string): Decision
  {
    var first := FirstDecision(Contents(Objects(parse, text, DEPTH_BUDGET)));
    if first.Some? then first.value else Prose(looksLikeEnvelope, stripEnvelope, text)
  }

  lemma {:induction false} FirstDecisionExact(objs: seq<seq<Field>>)
    ensures FirstDecision(objs).None? <==> forall i | 0 <= i < |objs| :: DecisionOf(objs[i]).None?
    ensures FirstDecision(objs).Some? ==>
      exists i :: 0 <= i < |objs| && DecisionOf(objs[i]) == FirstDecision(objs)
        && forall j | 0 <= j < i :: DecisionOf(objs[j]).None?
  {
    if objs != [] && DecisionOf(objs[0]).None? {
      FirstDecisionExact(objs[1..]);
      if FirstDecision(objs).Some? {
        var i :| 0 <= i < |objs[1..]| && DecisionOf(objs[1..][i]) == FirstDecision(objs[1..])
          && forall j | 0 <= j < i :: DecisionOf(objs[1..][j]).None?;
        forall j | 0 <= j < i + 1 ensures DecisionOf(objs[j]).None? {
          if j > 0 {
            assert objs[j] == objs[1..][j - 1];
          }
        }
        assert DecisionOf(objs[i + 1]) == FirstDecision(objs);
      } else {
        forall i | 0 <= i < |objs| ensures DecisionOf(objs[i]).None? {
          if i > 0 {
            assert objs[i] == objs[1..][i - 1];
          }
        }
      }
    }
  }

  /** The first object that is a decision, whatever stands before it; prose when there is none. */
  ghost predicate FirstOrProse(objs: seq<seq<Field>>, looksLikeEnvelope: string -> bool,
                               stripEnvelope: string -> string, text: string, decision: Decision)
  {
    || (exists i :: 0 <= i < |objs| && DecisionOf(objs[i]) == Some(decision)
          && forall j | 0 <= j < i :: DecisionOf(objs[j]).None?)
    || ((forall i | 0 <= i < |objs| :: DecisionOf(objs[i]).None?)
        && decision == Final(if looksLikeEnvelope(text) then stripEnvelope(text) else text))
  }

  method ParseDecision(parse: Parser, looksLikeEnvelope: string -> bool, stripEnvelope: string -> string,
                       text: string)
    returns (decision: Decision, ghost scanned: nat)
    ensures scanned <= 5 * |text|
    ensures decision == DecisionIn(parse, looksLikeEnvelope, stripEnvelope, text)
    ensures FirstOrProse(Contents(Objects(parse, text, DEPTH_BUDGET)), looksLikeEnvelope, stripEnvelope, text, decision)
  {
    var objs;
    objs, scanned := IterJsonObjects(parse, text, DEPTH_BUDGET);
    TimesIsProduct(DEPTH_BUDGET + 1, |text|);
    FirstDecisionExact(objs);
    for i := 0 to |objs|
      invariant FirstDecision(objs) == FirstDecision(objs[i..])
    {
      var found := DecisionOf(objs[i]);
      if found.Some? {
        return found.value, scanned;
      }
    }
    if looksLikeEnvelope(text) {
      return Final(stripEnvelope(text)), scanned;
    }
    return Final(text), scanned;
  }
}
