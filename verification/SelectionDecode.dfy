/**
 * `parse_decision` undoes a JSON printer, also inside wrappers that were never closed or
 * that do not parse, down to exactly the depth budget.
 */
module SelectionDecode {
  import opened Wrappers
  import opened Selection
  import opened SelectionScan

  // ----- Text after the first region is searched on its own -----

  lemma ShiftTwice(fs: seq<Found>, a: nat, b: nat)
    ensures Shift(Shift(fs, a), b) == Shift(fs, a + b)
  {
  }

  lemma ShiftConcat(fs: seq<Found>, gs: seq<Found>, a: nat)
    ensures Shift(fs + gs, a) == Shift(fs, a) + Shift(gs, a)
  {
  }

  lemma RegionMoves(parse: Parser, candidate: string, at: nat, off: nat, budget: nat)
    ensures Region(parse, candidate, at + off, budget) == Shift(Region(parse, candidate, at, budget), off)
  {
    if budget > 0 && |candidate| > 2 {
      ShiftTwice(Objects(parse, candidate[1..|candidate| - 1], budget - 1), at + 1, off);
    }
  }

  /** Scanning `v` from `i` on, and the same text at the end of a longer one. */
  ghost predicate Moved(parse: Parser, text: string, v: string, i: nat, st: Scan, start: int, budget: nat)
    requires i <= |v| <= |text| && text[|text| - |v|..] == v
    requires if st.depth > 0 then 0 <= start < i else start == -1
  {
    var off := |text| - |v|;
    ScanFrom(parse, text, off + i, st, if st.depth > 0 then off + start else -1, budget)
      == Shift(ScanFrom(parse, v, i, st, start, budget), off)
  }

  lemma Aligned(text: string, v: string, a: nat, b: nat)
    requires |v| <= |text| && text[|text| - |v|..] == v && a <= b <= |v|
    ensures var off := |text| - |v|; text[off + a..off + b] == v[a..b]
    ensures forall i | 0 <= i < |v| :: text[|text| - |v| + i] == v[i]
  {
    var off := |text| - |v|;
    assert text[off..|text|] == v;
    SubSlice(text, off, |text|, a, b);
    assert forall i | 0 <= i < |v| :: text[off..][i] == text[off + i];
  }

  lemma EndMoves(parse: Parser, text: string, v: string, st: Scan, start: int, budget: nat)
    requires |v| <= |text| && text[|text| - |v|..] == v
    requires if st.depth > 0 then 0 <= start < |v| else start == -1
    ensures Moved(parse, text, v, |v|, st, start, budget)
  {
    hide ScanFrom, Objects;
    var off := |text| - |v|;
    if st.depth > 0 && budget > 0 {
      var inner := Objects(parse, v[start + 1..], budget - 1);
      Aligned(text, v, start + 1, |v|);
      assert text[off + start + 1..] == text[off + start + 1..off + |v|];
      assert v[start + 1..|v|] == v[start + 1..];
      ScanEnds(parse, v, st, start, budget, inner);
      ScanEnds(parse, text, st, off + start, budget, inner);
      ShiftTwice(inner, start + 1, off);
    } else {
      ScanEnds(parse, v, st, start, budget, []);
      ScanEnds(parse, text, st, if st.depth > 0 then off + start else -1, budget, []);
    }
  }

  /** The step that closes a region. */
  lemma CloseMoves(parse: Parser, text: string, v: string, i: nat, st: Scan, start: int, budget: nat)
    requires i < |v| <= |text| && text[|text| - |v|..] == v
    requires 0 <= start < i && st.depth == 1 && Step(st, v[i]).depth == 0
    requires Moved(parse, text, v, i + 1, Step(st, v[i]), -1, budget)
    ensures Moved(parse, text, v, i, st, start, budget)
  {
    hide ScanFrom, Region;
    var off, region := |text| - |v|, v[start..i + 1];
    var rest := ScanFrom(parse, v, i + 1, Step(st, v[i]), -1, budget);
    Aligned(text, v, start, i + 1);
    ScanCloses(parse, v, i, st, start, budget, rest);
    ScanCloses(parse, text, off + i, st, off + start, budget, Shift(rest, off));
    RegionMoves(parse, region, start, off, budget);
    ShiftConcat(Region(parse, region, start, budget), rest, off);
  }

  /** Any other step. */
  lemma StepMoves(parse: Parser, text: string, v: string, i: nat, st: Scan, start: int, budget: nat)
    requires i < |v| <= |text| && text[|text| - |v|..] == v
    requires if st.depth > 0 then 0 <= start < i else start == -1
    requires !(st.depth == 1 && Step(st, v[i]).depth == 0)
    requires Moved(parse, text, v, i + 1, Step(st, v[i]), StartAfter(st, v[i], i, start), budget)
    ensures Moved(parse, text, v, i, st, start, budget)
  {
    hide ScanFrom;
    var off := |text| - |v|;
    Aligned(text, v, 0, 0);
    ScanGoesOn(parse, v, i, st, start, budget);
    ScanGoesOn(parse, text, off + i, st, if st.depth > 0 then off + start else -1, budget);
  }

  lemma {:induction false} ScanMoves(parse: Parser, text: string, v: string, i: nat, st: Scan, start: int,
                                     budget: nat)
    requires i <= |v| <= |text| && text[|text| - |v|..] == v
    requires if st.depth > 0 then 0 <= start < i else start == -1
    ensures Moved(parse, text, v, i, st, start, budget)
    decreases |v| - i
  {
    if i == |v| {
      EndMoves(parse, text, v, st, start, budget);
    } else if st.depth == 1 && Step(st, v[i]).depth == 0 {
      ScanMoves(parse, text, v, i + 1, Step(st, v[i]), -1, budget);
      CloseMoves(parse, text, v, i, st, start, budget);
    } else {
      ScanMoves(parse, text, v, i + 1, Step(st, v[i]), StartAfter(st, v[i], i, start), budget);
      StepMoves(parse, text, v, i, st, start, budget);
    }
  }

  /** A harmless prefix and a region can be split off: the rest is searched as if alone. */
  lemma ObjectsCompose(parse: Parser, p: string, region: string, rest: string, budget: nat)
    requires Harmless(p) && Balanced(region)
    ensures Objects(parse, p + region + rest, budget)
         == Region(parse, region, |p|, budget) + Shift(Objects(parse, rest, budget), |p + region|)
  {
    RegionFirst(parse, p, region, rest, budget);
    var text := p + region + rest;
    assert text[|text| - |rest|..] == rest;
    ScanMoves(parse, text, rest, 0, ZERO, -1, budget);
  }

  lemma UnopenedHasNone(parse: Parser, text: string, budget: nat)
    requires Unopened(Outside, text)
    ensures Objects(parse, text, budget) == []
  {
    assert text[0..|text|] == text;
    SkipUnopened(parse, text, 0, |text|, Outside, budget);
  }

  // ----- Wrappers around a core text -----

  /** `core` in a bare text, behind an unclosed brace, or inside a closed wrapper. */
  datatype Wrap =
    | Bare(prefix: string, suffix: string)
    | Unclosed(prefix: string, inner: Wrap)
    | Malformed(prefix: string, inner: Wrap, suffix: string)

  function Text(w: Wrap, core: string): string
  {
    match w
    case Bare(p, s) => p + core + s
    case Unclosed(p, inner) => p + "{" + Text(inner, core)
    case Malformed(p, inner, s) => p + ("{" + Text(inner, core) + "}") + s
  }

  function Layers(w: Wrap): nat
  {
    match w
    case Bare(_, _) => 0
    case Unclosed(_, inner) => 1 + Layers(inner)
    case Malformed(_, inner, _) => 1 + Layers(inner)
  }

  ghost predicate IsObject(parse: Parser, text: string)
  {
    parse(text).Some? && parse(text).value.JObject?
  }

  /** Prefixes are harmless, unclosed braces stay open, closed wrappers do not parse. */
  ghost predicate Wrapped(parse: Parser, w: Wrap, core: string)
  {
    && Harmless(w.prefix)
    && match w
       case Bare(_, _) => true
       case Unclosed(_, inner) =>
         var t := Text(inner, core);
         Above(Scan(Outside, 1), t, |t|, 1) && Wrapped(parse, inner, core)
       case Malformed(_, inner, _) =>
         var region := "{" + Text(inner, core) + "}";
         Balanced(region) && !IsObject(parse, region) && Wrapped(parse, inner, core)
  }

  /** The object in the core is found first, through as many wrappers as the budget. */
  lemma {:induction false} CoreFirst(parse: Parser, w: Wrap, core: string, fields: seq<Field>, budget: nat)
    requires Balanced(core) && parse(core) == Some(JObject(fields))
    requires Wrapped(parse, w, core) && Layers(w) <= budget
    ensures var objs := Contents(Objects(parse, Text(w, core), budget));
      objs != [] && objs[0] == fields
    decreases w
  {
    match w
    case Bare(p, s) =>
      ObjectsCompose(parse, p, core, s, budget);
    case Unclosed(p, inner) =>
      WrapperOpen(parse, p, Text(inner, core), budget);
      CoreFirst(parse, inner, core, fields, budget - 1);
    case Malformed(p, inner, s) =>
      var region := "{" + Text(inner, core) + "}";
      assert region[1..|region| - 1] == Text(inner, core);
      ObjectsCompose(parse, p, region, s, budget);
      assert Text(inner, core) != "" by { TextHoldsCore(inner, core); }
      CoreFirst(parse, inner, core, fields, budget - 1);
  }

  lemma {:induction false} TextHoldsCore(w: Wrap, core: string)
    ensures |Text(w, core)| >= |core|
    decreases w
  {
    if !w.Bare? {
      TextHoldsCore(w.inner, core);
    }
  }

  // ----- The printer -----

  function HexDigit(n: nat): char
    requires n < 16
  {
    "0123456789abcdef"[n]
  }

  /** String escaping, section 7 of RFC 8259. */
  function EscapeChar(ch: char): string
  {
    if ch == '"' then "\\\""
    else if ch == '\\' then "\\\\"
    else if ch < ' ' then "\\u00" + [HexDigit(ch as int / 16), HexDigit(ch as int % 16)]
    else [ch]
  }

  function Escape(s: string): string
  {
    if s == "" then "" else EscapeChar(s[0]) + Escape(s[1..])
  }

  function Encode(j: Json): string
    decreases j, 1
  {
    match j
    case JNull => "null"
    case JBool(b) => if b then "true" else "false"
    case JNumber(text, _) => text
    case JString(s) => "\"" + Escape(s) + "\""
    case JArray(items) => "[" + EncodeItems(items) + "]"
    case JObject(fields) => "{" + EncodeFields(fields) + "}"
  }

  function EncodeItems(items: seq<Json>): string
    decreases items, 0
  {
    if items == [] then ""
    else Encode(items[0]) + (if |items| == 1 then "" else ", ") + EncodeItems(items[1..])
  }

  function EncodeFields(fields: seq<Field>): string
    decreases fields, 0
  {
    if fields == [] then ""
    else
      "\"" + Escape(fields[0].key) + "\"" + ": " + Encode(fields[0].value)
        + (if |fields| == 1 then "" else ", ") + EncodeFields(fields[1..])
  }

  /** Number texts hold number characters only; nothing else about them matters here. */
  predicate Printable(j: Json)
  {
    match j
    case JNumber(text, _) => forall ch | ch in text :: ch in "0123456789+-.eE"
    case JArray(items) => forall item | item in items :: Printable(item)
    case JObject(fields) => forall f | f in fields :: Printable(f.value)
    case _ => true
  }

  // ----- Printed values keep the scanner's depth -----

  /** Read at depth `d`, `s` ends every string and brace it begins and stays at `d` or deeper. */
  ghost predicate Level(d: nat, s: string)
  {
    Run(Scan(Outside, d), s) == Scan(Outside, d) && Above(Scan(Outside, d), s, |s|, d)
  }

  lemma LevelConcat(d: nat, a: string, b: string)
    requires Level(d, a) && Level(d, b)
    ensures Level(d, a + b)
  {
    RunConcat(Scan(Outside, d), a, b);
    AboveConcat(Scan(Outside, d), a, b, d);
  }

  lemma NeutralLevel(d: nat, s: string)
    requires Neutral(s)
    ensures Level(d, s)
  {
    QuietRun(Outside, d, s);
  }

  lemma {:induction false} QuietConcat(lex: Lex, a: string, b: string)
    requires Quiet(lex, a) && Quiet(EndLex(lex, a), b)
    ensures Quiet(lex, a + b) && EndLex(lex, a + b) == EndLex(EndLex(lex, a), b)
    decreases |a|
  {
    if a == "" {
      assert a + b == b;
    } else {
      QuietConcat(Step(Scan(lex, 0), a[0]).lex, a[1..], b);
      assert (a + b)[1..] == a[1..] + b;
    }
  }

  lemma {:induction false} PlainNeutral(s: string)
    requires forall ch | ch in s :: ch != '"' && ch != '{' && ch != '}'
    ensures Neutral(s)
    decreases |s|
  {
    if s != "" {
      assert s[0] in s && forall ch | ch in s[1..] :: ch in s;
      PlainNeutral(s[1..]);
    }
  }

  /** Closing braces that close nothing, and all else but quotes and opening braces, are passed over. */
  lemma {:induction false} PlainHarmless(s: string)
    requires forall ch | ch in s :: ch != '"' && ch != '{'
    ensures Harmless(s)
    decreases |s|
  {
    if s != "" {
      assert s[0] in s && forall ch | ch in s[1..] :: ch in s;
      PlainHarmless(s[1..]);
    }
  }

  lemma {:induction false} PlainInString(s: string)
    requires forall ch | ch in s :: ch != '"' && ch != '\\'
    ensures Quiet(InString, s) && EndLex(InString, s) == InString
    decreases |s|
  {
    if s != "" {
      assert s[0] in s && forall ch | ch in s[1..] :: ch in s;
      PlainInString(s[1..]);
    }
  }

  lemma PairInString(ch: char)
    ensures Quiet(InString, ['\\', ch]) && EndLex(InString, ['\\', ch]) == InString
  {
    var s := ['\\', ch];
    assert s[1..] == [ch] && [ch][1..] == "";
    assert EndLex(Escaped, [ch]) == EndLex(InString, "");
  }

  lemma EscapeCharQuiet(ch: char)
    ensures Quiet(InString, EscapeChar(ch)) && EndLex(InString, EscapeChar(ch)) == InString
  {
    if ch == '"' || ch == '\\' {
      PairInString(ch);
      assert EscapeChar(ch) == ['\\', ch];
    } else if ch < ' ' {
      var digits := ['0', '0', HexDigit(ch as int / 16), HexDigit(ch as int % 16)];
      PairInString('u');
      PlainInString(digits);
      QuietConcat(InString, ['\\', 'u'], digits);
      assert EscapeChar(ch) == ['\\', 'u'] + digits;
    } else {
      PlainInString([ch]);
    }
  }

  lemma {:induction false} EscapeQuiet(s: string)
    ensures Quiet(InString, Escape(s)) && EndLex(InString, Escape(s)) == InString
  {
    if s != "" {
      EscapeCharQuiet(s[0]);
      EscapeQuiet(s[1..]);
      QuietConcat(InString, EscapeChar(s[0]), Escape(s[1..]));
    }
  }

  lemma StringNeutral(s: string)
    ensures Neutral("\"" + Escape(s) + "\"")
  {
    EscapeQuiet(s);
    QuietConcat(InString, Escape(s), "\"");
    QuietConcat(Outside, "\"", Escape(s) + "\"");
    assert "\"" + Escape(s) + "\"" == "\"" + (Escape(s) + "\"");
  }

  /** Braces around a text that is level one deeper. */
  lemma BraceLevel(d: nat, s: string)
    requires Level(d + 1, s)
    ensures Level(d, "{" + s + "}")
    ensures d == 0 ==> Balanced("{" + s + "}")
  {
    var st, text := Scan(Outside, d), "{" + s + "}";
    assert text == "{" + (s + "}");
    forall k | 0 < k <= |s| + 1 ensures Run(st, text[..k]).depth >= d + 1 {
      assert text[..k][1..] == s[..k - 1];
    }
    RunSnoc(Scan(Outside, d + 1), s, '}');
    assert text[1..] == s + ['}'];
    assert text[..|text|] == text;
  }

  lemma PlainLevel(d: nat, s: string)
    requires forall ch | ch in s :: ch != '"' && ch != '{' && ch != '}'
    ensures Level(d, s)
  {
    PlainNeutral(s);
    NeutralLevel(d, s);
  }

  lemma BracketLevel(d: nat, s: string)
    requires Level(d, s)
    ensures Level(d, "[" + s + "]")
  {
    PlainLevel(d, "[");
    PlainLevel(d, "]");
    LevelConcat(d, "[", s);
    LevelConcat(d, "[" + s, "]");
  }

  lemma {:induction false} EncodeLevel(j: Json, d: nat)
    requires Printable(j)
    ensures Level(d, Encode(j))
    decreases j, 1
  {
    match j
    case JNull => PlainLevel(d, "null");
    case JBool(b) => PlainLevel(d, Encode(j));
    case JNumber(text, _) => PlainLevel(d, text);
    case JString(s) => StringNeutral(s); NeutralLevel(d, Encode(j));
    case JArray(items) =>
      ItemsLevel(items, d);
      BracketLevel(d, EncodeItems(items));
    case JObject(fields) =>
      FieldsLevel(fields, d + 1);
      BraceLevel(d, EncodeFields(fields));
  }

  lemma {:induction false} ItemsLevel(items: seq<Json>, d: nat)
    requires forall item | item in items :: Printable(item)
    ensures Level(d, EncodeItems(items))
    decreases items, 0
  {
    if items != [] {
      var sep := if |items| == 1 then "" else ", ";
      EncodeLevel(items[0], d);
      PlainLevel(d, sep);
      ItemsLevel(items[1..], d);
      LevelConcat(d, Encode(items[0]), sep);
      LevelConcat(d, Encode(items[0]) + sep, EncodeItems(items[1..]));
    }
  }

  lemma {:induction false} FieldsLevel(fields: seq<Field>, d: nat)
    requires forall f | f in fields :: Printable(f.value)
    ensures Level(d, EncodeFields(fields))
    decreases fields, 0
  {
    if fields != [] {
      var key, value := "\"" + Escape(fields[0].key) + "\"", Encode(fields[0].value);
      var sep := if |fields| == 1 then "" else ", ";
      StringNeutral(fields[0].key); NeutralLevel(d, key);
      PlainLevel(d, ": ");
      EncodeLevel(fields[0].value, d);
      PlainLevel(d, sep);
      FieldsLevel(fields[1..], d);
      LevelConcat(d, key, ": ");
      LevelConcat(d, key + ": ", value);
      LevelConcat(d, key + ": " + value, sep);
      LevelConcat(d, key + ": " + value + sep, EncodeFields(fields[1..]));
    }
  }

  /** Every printed object is one balanced region. */
  lemma EncodeBalanced(fields: seq<Field>)
    requires Printable(JObject(fields))
    ensures Balanced(Encode(JObject(fields)))
  {
    FieldsLevel(fields, 1);
    BraceLevel(0, EncodeFields(fields));
  }

  // ----- Decisions -----

  function FieldsOf(d: Decision): seq<Field>
  {
    match d
    case Final(answer) => [Field("action", JString("final")), Field("answer", JString(answer))]
    case Tool(name, arguments) =>
      [Field("action", JString("tool")), Field("tool", JString(name)), Field("arguments", JObject(arguments))]
  }

  function EncodeDecision(d: Decision): string
  {
    Encode(JObject(FieldsOf(d)))
  }

  /** A tool call needs a name, and arguments that print. */
  predicate Encodable(d: Decision)
  {
    d.Tool? ==> d.name != "" && Printable(JObject(d.arguments))
  }

  lemma DecisionOfFields(d: Decision)
    requires Encodable(d)
    ensures DecisionOf(FieldsOf(d)) == Some(d)
    ensures Printable(JObject(FieldsOf(d)))
  {
    hide Get;
    if d.Tool? {
      GetOfThree(FieldsOf(d), "action");
      GetOfThree(FieldsOf(d), "tool");
      GetOfThree(FieldsOf(d), "arguments");
    } else {
      GetOfTwo(FieldsOf(d), "action");
      GetOfTwo(FieldsOf(d), "answer");
    }
  }

  /**
   * The alias `tool_name` is read exactly when `tool` is absent, null, false, zero or empty, so any
   * other `tool` that is not a string spoils the call, and so does an alias that is no name;
   * arguments that are not an object read as none.
   */
  lemma AliasReadExactly(tool: Json, alias: Json, arguments: Json)
    ensures var fields := [Field("action", JString("tool")), Field("tool", tool),
                           Field("tool_name", alias), Field("arguments", arguments)];
      var falsy := tool in {JNull, JBool(false), JString(""), JArray([]), JObject([])} || (tool.JNumber? && tool.zero);
      var name := if falsy then alias else tool;
      DecisionOf(fields) ==
        if name.JString? && name.s != ""
        then Some(Tool(name.s, if arguments.JObject? then arguments.fields else []))
        else None
  {
    hide Get;
    var first := [Field("action", JString("tool")), Field("tool", tool), Field("tool_name", alias)];
    var last := Field("arguments", arguments);
    assert first + [last] == [first[0], first[1], first[2], last];
    forall key: string
      ensures Get(first + [last], key) == if key == last.key then arguments else Get(first, key)
    {
      GetAppend(first, last, key);
    }
    forall key: string
      ensures Get(first, key) == if key == "tool_name" then alias else if key == "tool" then tool
                                 else if key == "action" then JString("tool") else JNull
    {
      GetOfThree(first, key);
    }
  }

  /** A final action needs a string for an answer, and any action but these two is no decision. */
  lemma FinalReadExactly(action: string, answer: Json)
    requires action != "tool"
    ensures DecisionOf([Field("action", JString(action)), Field("answer", answer)])
         == if action == "final" && answer.JString? then Some(Final(answer.s)) else None
  {
    var fields := [Field("action", JString(action)), Field("answer", answer)];
    GetOfTwo(fields, "action");
    GetOfTwo(fields, "answer");
  }

  /** The last binding of a key is read; an absent key reads as null. */
  lemma {:induction false} GetExact(fields: seq<Field>, key: string)
    ensures if exists i :: 0 <= i < |fields| && fields[i].key == key then
        exists i :: 0 <= i < |fields| && fields[i].key == key && Get(fields, key) == fields[i].value
          && forall j | i < j < |fields| :: fields[j].key != key
      else Get(fields, key) == JNull
    decreases |fields|
  {
    if fields != [] && fields[|fields| - 1].key != key {
      var n := |fields| - 1;
      GetExact(fields[..n], key);
      if i :| 0 <= i < |fields| && fields[i].key == key {
        assert fields[..n][i].key == key;
        var k :| 0 <= k < n && fields[..n][k].key == key && Get(fields[..n], key) == fields[..n][k].value
          && forall j | k < j < n :: fields[..n][j].key != key;
        assert fields[k].key == key && forall j | k < j < n :: fields[j] == fields[..n][j];
      }
    }
  }

  lemma GetAppend(fields: seq<Field>, last: Field, key: string)
    ensures Get(fields + [last], key) == if last.key == key then last.value else Get(fields, key)
  {
    assert (fields + [last])[..|fields|] == fields;
  }

  lemma GetOfTwo(fs: seq<Field>, key: string)
    requires |fs| == 2
    ensures Get(fs, key) ==
      if fs[1].key == key then fs[1].value else if fs[0].key == key then fs[0].value else JNull
  {
    hide Get;
    GetOfOne(fs[0], key);
    GetAppend([fs[0]], fs[1], key);
    assert [fs[0]] + [fs[1]] == fs;
  }

  lemma GetOfOne(f: Field, key: string)
    ensures Get([f], key) == if f.key == key then f.value else JNull
  {
    assert [f][..0] == [];
  }

  lemma GetOfThree(fs: seq<Field>, key: string)
    requires |fs| == 3
    ensures Get(fs, key) ==
      if fs[2].key == key then fs[2].value
      else if fs[1].key == key then fs[1].value
      else if fs[0].key == key then fs[0].value else JNull
  {
    hide Get;
    GetOfTwo(fs[..2], key);
    GetAppend(fs[..2], fs[2], key);
    assert fs[..2] + [fs[2]] == fs;
  }

  /** The decision comes back from inside any admissible wrapping of at most four layers. */
  lemma DecisionRecovered(parse: Parser, looksLike: string -> bool, strip: string -> string,
                          d: Decision, w: Wrap)
    requires Encodable(d) && parse(EncodeDecision(d)) == Some(JObject(FieldsOf(d)))
    requires Wrapped(parse, w, EncodeDecision(d)) && Layers(w) <= DEPTH_BUDGET
    ensures DecisionIn(parse, looksLike, strip, Text(w, EncodeDecision(d))) == d
  {
    DecisionOfFields(d);
    EncodeBalanced(FieldsOf(d));
    CoreFirst(parse, w, EncodeDecision(d), FieldsOf(d), DEPTH_BUDGET);
  }

  // ----- A response cut short: wrappers that were never closed -----

  function Truncated(prefixes: seq<string>, core: string): string
    requires prefixes != []
  {
    if |prefixes| == 1 then prefixes[0] + core
    else prefixes[0] + "{" + Truncated(prefixes[1..], core)
  }

  lemma {:induction false} TruncatedStaysOpen(prefixes: seq<string>, core: string, suffix: string, d: nat)
    requires prefixes != [] && (forall p | p in prefixes :: Neutral(p))
    requires Balanced(core) && Quiet(Outside, suffix)
    ensures var t := Truncated(prefixes, core + suffix); Above(Scan(Outside, d), t, |t|, d)
    decreases |prefixes|
  {
    var p, st := prefixes[0], Scan(Outside, d);
    assert p in prefixes;
    QuietRun(Outside, d, p);
    if |prefixes| == 1 {
      BalancedAnywhere(d, core);
      QuietRun(Outside, d, suffix);
      AboveConcat(st, core, suffix, d);
      AboveConcat(st, p, core + suffix, d);
    } else {
      var t := Truncated(prefixes[1..], core + suffix);
      TruncatedStaysOpen(prefixes[1..], core, suffix, d + 1);
      assert Run(st, "{") == Scan(Outside, d + 1) && "{"[..1] == "{";
      assert Above(st, "{", 1, d);
      AboveConcat(st, "{", t, d);
      AboveConcat(st, p, "{" + t, d);
      assert p + "{" + t == p + ("{" + t);
    }
  }

  /** Found exactly when the braces left open are no more than the budget. */
  lemma {:induction false} TruncatedObjects(parse: Parser, prefixes: seq<string>, core: string, suffix: string,
                                            fields: seq<Field>, budget: nat)
    requires prefixes != [] && (forall p | p in prefixes :: Neutral(p))
    requires Balanced(core) && Quiet(Outside, suffix) && parse(core) == Some(JObject(fields))
    ensures Contents(Objects(parse, Truncated(prefixes, core + suffix), budget))
         == if |prefixes| - 1 <= budget then [fields] else []
    decreases |prefixes|
  {
    assert prefixes[0] in prefixes;
    QuietUnopened(Outside, prefixes[0]);
    if |prefixes| == 1 {
      ObjectsCompose(parse, prefixes[0], core, suffix, budget);
      QuietUnopened(Outside, suffix);
      UnopenedHasNone(parse, suffix, budget);
      assert prefixes[0] + core + suffix == prefixes[0] + (core + suffix);
    } else {
      var t := Truncated(prefixes[1..], core + suffix);
      TruncatedStaysOpen(prefixes[1..], core, suffix, 1);
      WrapperOpen(parse, prefixes[0], t, budget);
      if budget > 0 {
        TruncatedObjects(parse, prefixes[1..], core, suffix, fields, budget - 1);
      }
    }
  }

  /**
   * A decision printed behind braces that are never closed, with brace-free text between
   * and after: it is read back when at most four are open, and is lost to the prose
   * fallback as soon as there are five.
   */
  lemma TruncatedDecision(parse: Parser, looksLike: string -> bool, strip: string -> string,
                          d: Decision, prefixes: seq<string>, suffix: string)
    requires prefixes != [] && (forall p | p in prefixes :: Neutral(p)) && Quiet(Outside, suffix)
    requires Encodable(d) && parse(EncodeDecision(d)) == Some(JObject(FieldsOf(d)))
    ensures var text := Truncated(prefixes, EncodeDecision(d) + suffix);
      DecisionIn(parse, looksLike, strip, text)
        == if |prefixes| - 1 <= 4 then d else Final(if looksLike(text) then strip(text) else text)
  {
    DecisionOfFields(d);
    EncodeBalanced(FieldsOf(d));
    TruncatedObjects(parse, prefixes, EncodeDecision(d), suffix, FieldsOf(d), DEPTH_BUDGET);
  }

  /** Without a wrapper the text after the decision is arbitrary. */
  lemma BareDecision(parse: Parser, looksLike: string -> bool, strip: string -> string,
                     d: Decision, prefix: string, suffix: string)
    requires Harmless(prefix)
    requires Encodable(d) && parse(EncodeDecision(d)) == Some(JObject(FieldsOf(d)))
    ensures DecisionIn(parse, looksLike, strip, prefix + EncodeDecision(d) + suffix) == d
  {
    DecisionRecovered(parse, looksLike, strip, d, Bare(prefix, suffix));
  }

  // ----- Objects that are no decision are skipped -----

  /** Objects that parse and are no decision, each behind harmless text. */
  datatype Foreign = Foreign(prefix: string, region: string)

  function Preamble(parts: seq<Foreign>): string
  {
    if parts == [] then "" else parts[0].prefix + parts[0].region + Preamble(parts[1..])
  }

  ghost predicate NoDecision(parse: Parser, part: Foreign)
  {
    && Harmless(part.prefix) && Balanced(part.region)
    && IsObject(parse, part.region) && DecisionOf(parse(part.region).value.fields) == None
  }

  /** They change neither what is decided behind them nor that nothing is. */
  lemma {:induction false} ForeignSkipped(parse: Parser, parts: seq<Foreign>, rest: string)
    requires forall part | part in parts :: NoDecision(parse, part)
    ensures FirstDecision(Contents(Objects(parse, Preamble(parts) + rest, DEPTH_BUDGET)))
         == FirstDecision(Contents(Objects(parse, rest, DEPTH_BUDGET)))
    decreases |parts|
  {
    if parts == [] {
      assert Preamble(parts) + rest == rest;
    } else {
      var part, behind := parts[0], Preamble(parts[1..]) + rest;
      assert part in parts;
      assert Preamble(parts) + rest == part.prefix + part.region + behind;
      ForeignFirst(parse, part, behind);
      ForeignSkipped(parse, parts[1..], rest);
    }
  }

  lemma ForeignFirst(parse: Parser, part: Foreign, behind: string)
    requires NoDecision(parse, part)
    ensures FirstDecision(Contents(Objects(parse, part.prefix + part.region + behind, DEPTH_BUDGET)))
         == FirstDecision(Contents(Objects(parse, behind, DEPTH_BUDGET)))
  {
    var text, at := part.prefix + part.region + behind, |part.prefix|;
    var fields := parse(part.region).value.fields;
    ObjectsCompose(parse, part.prefix, part.region, behind, DEPTH_BUDGET);
    var rest := Objects(parse, behind, DEPTH_BUDGET);
    ContentsConcat(Region(parse, part.region, at, DEPTH_BUDGET), Shift(rest, |part.prefix + part.region|));
    ContentsShift(rest, |part.prefix + part.region|);
    assert Contents(Region(parse, part.region, at, DEPTH_BUDGET)) == [fields];
    assert ([fields] + Contents(rest))[1..] == Contents(rest);
  }

  /** Behind any number of such objects the decision is returned, wrapped or not. */
  lemma DecisionBehindForeign(parse: Parser, looksLike: string -> bool, strip: string -> string,
                              parts: seq<Foreign>, d: Decision, w: Wrap)
    requires forall part | part in parts :: NoDecision(parse, part)
    requires Encodable(d) && parse(EncodeDecision(d)) == Some(JObject(FieldsOf(d)))
    requires Wrapped(parse, w, EncodeDecision(d)) && Layers(w) <= DEPTH_BUDGET
    ensures DecisionIn(parse, looksLike, strip, Preamble(parts) + Text(w, EncodeDecision(d))) == d
  {
    ForeignSkipped(parse, parts, Text(w, EncodeDecision(d)));
    DecisionOfFields(d);
    EncodeBalanced(FieldsOf(d));
    CoreFirst(parse, w, EncodeDecision(d), FieldsOf(d), DEPTH_BUDGET);
  }

  // ----- A closed wrapper is searched only when it does not parse -----

  /**
   * A closed wrapper that holds a decision and is itself not one: the decision is read
   * when the wrapper fails to parse, and never when the wrapper parses.
   */
  lemma ClosedWrapper(parse: Parser, looksLike: string -> bool, strip: string -> string,
                      d: Decision, p: string, w: Wrap, rest: string)
    requires Harmless(p) && Unopened(Outside, rest)
    requires Encodable(d) && parse(EncodeDecision(d)) == Some(JObject(FieldsOf(d)))
    requires Wrapped(parse, w, EncodeDecision(d)) && Layers(w) < DEPTH_BUDGET
    requires var region := "{" + Text(w, EncodeDecision(d)) + "}";
      Balanced(region) && (IsObject(parse, region) ==> DecisionOf(parse(region).value.fields) == None)
    ensures var region := "{" + Text(w, EncodeDecision(d)) + "}"; var text := p + region + rest;
      DecisionIn(parse, looksLike, strip, text)
        == if IsObject(parse, region) then Final(if looksLike(text) then strip(text) else text) else d
  {
    var region := "{" + Text(w, EncodeDecision(d)) + "}";
    if IsObject(parse, region) {
      ForeignObject(parse, looksLike, strip, p, region, rest);
    } else {
      DecisionRecovered(parse, looksLike, strip, d, Malformed(p, w, rest));
    }
  }

  /** An object that parses but is not a decision hides everything inside it. */
  lemma ForeignObject(parse: Parser, looksLike: string -> bool, strip: string -> string,
                      p: string, region: string, rest: string)
    requires Harmless(p) && Balanced(region) && Unopened(Outside, rest)
    requires IsObject(parse, region) && DecisionOf(parse(region).value.fields) == None
    ensures var text := p + region + rest;
      DecisionIn(parse, looksLike, strip, text) == Final(if looksLike(text) then strip(text) else text)
  {
    ObjectsCompose(parse, p, region, rest, DEPTH_BUDGET);
    UnopenedHasNone(parse, rest, DEPTH_BUDGET);
    var fields := parse(region).value.fields;
    assert Contents(Objects(parse, p + region + rest, DEPTH_BUDGET)) == [fields];
    assert FirstDecision([fields][1..]) == None;
  }

  function OrderEnvelope(answer: string): seq<Field>
  {
    [Field("action", JString("order")), Field("steps", JArray([JObject(FieldsOf(Final(answer)))]))]
  }

  /** For instance an "order" envelope whose steps hold a final answer, on any parser. */
  lemma OrderEnvelopeHidesAnswer(parse: Parser, looksLike: string -> bool, strip: string -> string, answer: string)
    requires var envelope := JObject(OrderEnvelope(answer)); parse(Encode(envelope)) == Some(envelope)
    ensures var text := Encode(JObject(OrderEnvelope(answer)));
      DecisionIn(parse, looksLike, strip, text) == Final(if looksLike(text) then strip(text) else text)
  {
    hide Get, Encode, OrderEnvelope, Printable, DecisionOf, Balanced, DecisionIn;
    OrderIsForeign(answer);
    OrderPrints(answer);
    EncodeBalanced(OrderEnvelope(answer));
    var text := Encode(JObject(OrderEnvelope(answer)));
    ForeignObject(parse, looksLike, strip, "", text, "");
    assert "" + text + "" == text;
  }

  lemma OrderIsForeign(answer: string)
    ensures DecisionOf(OrderEnvelope(answer)) == None
  {
    var fields := OrderEnvelope(answer);
    GetAppend([], fields[0], "action");
    GetAppend([fields[0]], fields[1], "action");
    assert fields == [fields[0]] + [fields[1]] && [] + [fields[0]] == [fields[0]];
  }

  lemma OrderPrints(answer: string)
    ensures Printable(JObject(OrderEnvelope(answer)))
  {
    DecisionOfFields(Final(answer));
    assert Printable(JArray([JObject(FieldsOf(Final(answer)))]));
  }
}
