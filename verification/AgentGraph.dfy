/**
 * The reason / act / observe graph: node functions that return partial updates, the
 * conditional edges between them, and the runtime that merges updates last write wins.
 *
 * The selection strategy and the tools are parameters, and may answer differently at
 * every step: both receive the number of nodes executed so far.
 */
module AgentGraph {
  import opened Wrappers

  type Arguments = map<string, string>

  datatype ToolCall = ToolCall(name: string, arguments: Arguments)

  datatype Kind = ToolResult | ToolNotFound | ValidationError | ToolExecutionError

  datatype Observation = Observation(kind: Kind, tool: Option<string>, content: string, data: Arguments)

  datatype Reason = FinalAnswer | IterationLimitReached

  datatype AgentState = AgentState(
    runId: string,
    conversationId: string,
    userRequest: string,
    context: seq<string>,
    observations: seq<Observation>,
    iterationCount: nat,
    iterationLimit: nat,
    pendingToolCall: Option<ToolCall>,
    pendingObservation: Option<Observation>,
    finalAnswer: Option<string>,
    terminationReason: Option<Reason>,
    invalidLimitFlagged: bool)

  /** Any combination of fields: nothing forces a tool decision to carry a call. */
  datatype Decision = Decision(isFinal: bool, answer: Option<string>, toolCall: Option<ToolCall>)

  datatype Reply = Raised(message: string) | Returned(content: string, data: Arguments)

  datatype World = World(
    select: (nat, AgentState) -> Decision,
    registered: (nat, string) -> bool,
    argumentError: ToolCall -> Option<string>,
    invoke: (nat, ToolCall) -> Reply)

  // ----- The iteration limit -----

  datatype Configured = Absent | Integer(n: int) | Boolean(b: bool) | OtherValue

  function ResolveLimit(configured: Configured): (r: (nat, bool))
    ensures 1 <= r.0 <= 100
    ensures r.1 <==> configured != Absent && !(configured.Integer? && 1 <= configured.n <= 100)
    ensures !r.1 && configured.Integer? ==> r.0 == configured.n
    ensures configured == Absent || r.1 ==> r.0 == 10
  {
    match configured
    case Absent => (10, false)
    case Integer(n) => if 1 <= n <= 100 then (n, false) else (10, true)
    case _ => (10, true)
  }

  // ----- Partial updates -----

  datatype Change<T> = Keep | Set(value: T)

  datatype Update = Update(
    observations: Change<seq<Observation>>,
    iterationCount: Change<nat>,
    pendingToolCall: Change<Option<ToolCall>>,
    pendingObservation: Change<Option<Observation>>,
    finalAnswer: Change<Option<string>>,
    terminationReason: Change<Option<Reason>>)

  const NOTHING := Update(Keep, Keep, Keep, Keep, Keep, Keep)

  function Or<T>(c: Change<T>, before: T): T
  {
    match c
    case Keep => before
    case Set(v) => v
  }

  function Apply(s: AgentState, u: Update): AgentState
  {
    s.(observations := Or(u.observations, s.observations),
       iterationCount := Or(u.iterationCount, s.iterationCount),
       pendingToolCall := Or(u.pendingToolCall, s.pendingToolCall),
       pendingObservation := Or(u.pendingObservation, s.pendingObservation),
       finalAnswer := Or(u.finalAnswer, s.finalAnswer),
       terminationReason := Or(u.terminationReason, s.terminationReason))
  }

  function Later<T>(first: Change<T>, second: Change<T>): Change<T>
  {
    if second.Keep? then first else second
  }

  /** `dict.update`: the later update wins field by field. */
  function Merge(u: Update, v: Update): Update
  {
    Update(Later(u.observations, v.observations),
           Later(u.iterationCount, v.iterationCount),
           Later(u.pendingToolCall, v.pendingToolCall),
           Later(u.pendingObservation, v.pendingObservation),
           Later(u.finalAnswer, v.finalAnswer),
           Later(u.terminationReason, v.terminationReason))
  }

  // ----- Nodes -----

  datatype Node = ReasonNode | ActNode | ObserveNode | FinalizeNode | FinalizeLimitNode | End

  function LastContent(observations: seq<Observation>, fallback: string): string
  {
    if observations == [] then fallback
    else if observations[|observations| - 1].content != "" then observations[|observations| - 1].content
    else LastContent(observations[..|observations| - 1], fallback)
  }

  function MostRecentAnswer(s: AgentState): string
  {
    if s.finalAnswer.Some? && s.finalAnswer.value != "" then s.finalAnswer.value
    else LastContent(s.observations, s.userRequest)
  }

  function Dispatch(w: World, step: nat, call: Option<ToolCall>): Observation
  {
    match call
    case None => Observation(ValidationError, None, "no tool call was staged", map[])
    case Some(c) =>
      if !w.registered(step, c.name) then
        Observation(ToolNotFound, Some(c.name), "tool '" + c.name + "' is not registered", map[])
      else
        match w.argumentError(c)
        case Some(error) => Observation(ValidationError, Some(c.name), error, map[])
        case None =>
          match w.invoke(step, c)
          case Raised(message) => Observation(ToolExecutionError, Some(c.name), message, map[])
          case Returned(content, data) => Observation(ToolResult, Some(c.name), content, data)
  }

  function NodeUpdate(w: World, node: Node, step: nat, s: AgentState): Update
  {
    match node
    case ReasonNode =>
      var decision := w.select(step, s);
      if decision.isFinal then
        NOTHING.(finalAnswer := Set(decision.answer), terminationReason := Set(Some(FinalAnswer)),
                 pendingToolCall := Set(None))
      else NOTHING.(pendingToolCall := Set(decision.toolCall))
    case ActNode =>
      NOTHING.(pendingObservation := Set(Some(Dispatch(w, step, s.pendingToolCall))))
    case ObserveNode =>
      var added := if s.pendingObservation.Some? then [s.pendingObservation.value] else [];
      NOTHING.(observations := Set(s.observations + added), iterationCount := Set(s.iterationCount + 1),
               pendingObservation := Set(None), pendingToolCall := Set(None))
    case FinalizeNode =>
      NOTHING.(terminationReason := if s.terminationReason.None? then Set(Some(FinalAnswer)) else Keep,
               finalAnswer := if s.finalAnswer.None? then Set(Some(MostRecentAnswer(s))) else Keep)
    case FinalizeLimitNode =>
      NOTHING.(terminationReason := Set(Some(IterationLimitReached)),
               finalAnswer := Set(Some(MostRecentAnswer(s))))
    case End => NOTHING
  }

  /** The edge out of `node`, taken on the state after its update. */
  function Route(node: Node, s: AgentState): Node
  {
    match node
    case ReasonNode => if s.terminationReason.Some? then FinalizeNode else ActNode
    case ActNode => ObserveNode
    case ObserveNode => if s.iterationCount >= s.iterationLimit then FinalizeLimitNode else ReasonNode
    case _ => End
  }

  // ----- The runtime -----

  /** The next node, the state it will see, and the number of nodes executed before it. */
  datatype Config = Config(node: Node, state: AgentState, step: nat)

  datatype Chunk = Chunk(node: Node, update: Update)

  function Advance(w: World, c: Config): Config
  {
    var s := Apply(c.state, NodeUpdate(w, c.node, c.step, c.state));
    Config(Route(c.node, s), s, c.step + 1)
  }

  /** The updates of at most `limit` node executions, in order. */
  function Chunks(w: World, c: Config, limit: nat): seq<Chunk>
    decreases limit
  {
    if limit == 0 || c.node == End then []
    else [Chunk(c.node, NodeUpdate(w, c.node, c.step, c.state))] + Chunks(w, Advance(w, c), limit - 1)
  }

  /** Where at most `limit` node executions lead. */
  function Execute(w: World, c: Config, limit: nat): Config
    decreases limit
  {
    if limit == 0 || c.node == End then c else Execute(w, Advance(w, c), limit - 1)
  }

  // ----- The reference: a plain bounded loop -----

  /** A state at a reason node: nothing pending, nothing decided, one observation a cycle. */
  ghost predicate AtReason(s: AgentState)
  {
    && |s.observations| == s.iterationCount < s.iterationLimit
    && s.pendingToolCall == None && s.pendingObservation == None
    && s.finalAnswer == None && s.terminationReason == None
  }

  function Choice(w: World, s: AgentState): Decision
  {
    w.select(3 * s.iterationCount, s)
  }

  /** One completed cycle: the observation of the chosen call joins the scratchpad. */
  function Cycle(w: World, s: AgentState): AgentState
  {
    var observation := Dispatch(w, 3 * s.iterationCount + 1, Choice(w, s).toolCall);
    s.(observations := s.observations + [observation], iterationCount := s.iterationCount + 1)
  }

  /** Choose until a final decision or the limit. */
  function Loop(w: World, s: AgentState): AgentState
    decreases s.iterationLimit - s.iterationCount
  {
    var decision := Choice(w, s);
    if decision.isFinal then
      s.(finalAnswer := Some(if decision.answer.Some? then decision.answer.value else MostRecentAnswer(s)),
         terminationReason := Some(FinalAnswer))
    else
      var next := Cycle(w, s);
      if next.iterationCount >= next.iterationLimit then
        next.(finalAnswer := Some(MostRecentAnswer(next)), terminationReason := Some(IterationLimitReached))
      else Loop(w, next)
  }

  lemma LoopStep(w: World, s: AgentState)
    ensures var next := Cycle(w, s);
      if Choice(w, s).isFinal then
        && Loop(w, s).observations == s.observations && Loop(w, s).iterationCount == s.iterationCount
        && Loop(w, s).terminationReason == Some(FinalAnswer)
      else if next.iterationCount >= next.iterationLimit then
        && Loop(w, s).observations == next.observations && Loop(w, s).iterationCount == next.iterationCount
        && Loop(w, s).terminationReason == Some(IterationLimitReached)
      else Loop(w, s) == Loop(w, next)
  {
  }

  // ----- The graph computes the loop, within the node budget -----

  ghost function NodesLeft(s: AgentState): nat
    requires AtReason(s)
  {
    3 * (s.iterationLimit - s.iterationCount) + 1
  }

  /** Three nodes carry one reason state to the next reason or limit state. */
  lemma CycleNodes(w: World, s: AgentState)
    requires AtReason(s) && !Choice(w, s).isFinal
    ensures var c := Config(ReasonNode, s, 3 * s.iterationCount);
      var next := Cycle(w, s);
      var node := if next.iterationCount >= next.iterationLimit then FinalizeLimitNode else ReasonNode;
      && Advance(w, c).node == ActNode && Advance(w, Advance(w, c)).node == ObserveNode
      && Advance(w, Advance(w, Advance(w, c))) == Config(node, next, 3 * next.iterationCount)
  {
    var c := Config(ReasonNode, s, 3 * s.iterationCount);
    var acting := Advance(w, c);
    assert acting == Config(ActNode, s.(pendingToolCall := Choice(w, s).toolCall), c.step + 1);
    var observing := Advance(w, acting);
    assert observing.state.pendingObservation == Some(Dispatch(w, c.step + 1, Choice(w, s).toolCall));
    assert Advance(w, observing).state == Cycle(w, s);
  }

  lemma ExecuteNode(w: World, c: Config, limit: nat)
    requires limit > 0 && c.node != End
    ensures Execute(w, c, limit) == Execute(w, Advance(w, c), limit - 1)
    ensures |Chunks(w, c, limit)| == 1 + |Chunks(w, Advance(w, c), limit - 1)|
    ensures Advance(w, c).step == c.step + 1
  {
  }

  lemma ExecuteFinal(w: World, s: AgentState, limit: nat)
    requires AtReason(s) && limit >= 2 && Choice(w, s).isFinal
    ensures var c := Config(ReasonNode, s, 3 * s.iterationCount);
      Execute(w, c, limit) == Config(End, Loop(w, s), c.step + 2) && |Chunks(w, c, limit)| == 2
  {
    var c := Config(ReasonNode, s, 3 * s.iterationCount);
    ExecuteNode(w, c, limit);
    ExecuteNode(w, Advance(w, c), limit - 1);
  }

  lemma ExecuteCycle(w: World, s: AgentState, limit: nat)
    requires AtReason(s) && limit >= 3 && !Choice(w, s).isFinal
    ensures var c := Config(ReasonNode, s, 3 * s.iterationCount);
      var next := Cycle(w, s);
      var node := if next.iterationCount >= next.iterationLimit then FinalizeLimitNode else ReasonNode;
      var d := Config(node, next, 3 * next.iterationCount);
      && Execute(w, c, limit) == Execute(w, d, limit - 3)
      && |Chunks(w, c, limit)| == 3 + |Chunks(w, d, limit - 3)|
  {
    CycleNodes(w, s);
    var c := Config(ReasonNode, s, 3 * s.iterationCount);
    ExecuteNode(w, c, limit);
    ExecuteNode(w, Advance(w, c), limit - 1);
    ExecuteNode(w, Advance(w, Advance(w, c)), limit - 2);
  }

  lemma ExecuteLimit(w: World, s: AgentState, limit: nat)
    requires limit >= 1 && s.iterationCount >= s.iterationLimit
    ensures var c := Config(FinalizeLimitNode, s, 3 * s.iterationCount);
      && Execute(w, c, limit).node == End && |Chunks(w, c, limit)| == 1
      && Execute(w, c, limit).state
           == s.(finalAnswer := Some(MostRecentAnswer(s)), terminationReason := Some(IterationLimitReached))
  {
    var c := Config(FinalizeLimitNode, s, 3 * s.iterationCount);
    ExecuteNode(w, c, limit);
    assert Advance(w, c).node == End && Chunks(w, Advance(w, c), limit - 1) == [];
  }

  /** With budget for the cycles left, the graph ends where the loop ends. */
  lemma {:induction false} ExecuteIsLoop(w: World, s: AgentState, limit: nat)
    requires AtReason(s) && limit >= NodesLeft(s)
    ensures var c := Config(ReasonNode, s, 3 * s.iterationCount);
      && Execute(w, c, limit).node == End && Execute(w, c, limit).state == Loop(w, s)
      && |Chunks(w, c, limit)| <= NodesLeft(s)
    decreases s.iterationLimit - s.iterationCount
  {
    hide Execute, Chunks, Dispatch;
    if Choice(w, s).isFinal {
      ExecuteFinal(w, s, limit);
    } else {
      ExecuteCycle(w, s, limit);
      var next := Cycle(w, s);
      if next.iterationCount >= next.iterationLimit {
        ExecuteLimit(w, next, limit - 3);
      } else {
        ExecuteIsLoop(w, next, limit - 3);
      }
    }
  }

  // ----- What a dispatched call leaves -----

  /** What became of a call: nothing staged, no such tool, invalid arguments, a failure, or a result. */
  ghost predicate OutcomeOfCall(w: World, step: nat, call: Option<ToolCall>, o: Observation)
  {
    match call
    case None => o.kind == ValidationError && o.tool == None
    case Some(c) =>
      && o.tool == Some(c.name)
      && (o.kind == ToolNotFound <==> !w.registered(step, c.name))
      && (o.kind == ValidationError <==> w.registered(step, c.name) && w.argumentError(c).Some?)
      && (o.kind == ValidationError ==> o.content == w.argumentError(c).value)
      && (o.kind == ToolExecutionError ==> w.invoke(step, c) == Raised(o.content))
      && (o.kind == ToolResult ==> w.invoke(step, c) == Returned(o.content, o.data))
  }

  lemma DispatchExact(w: World, step: nat, call: Option<ToolCall>)
    ensures OutcomeOfCall(w, step, call, Dispatch(w, step, call))
  {
  }

  /** A tool that is not there, or is called with invalid arguments, is not invoked: its reply does not matter. */
  lemma OnlyValidCallsInvoke(w: World, invoke: (nat, ToolCall) -> Reply, step: nat, call: Option<ToolCall>)
    requires call.Some? ==> !w.registered(step, call.value.name) || w.argumentError(call.value).Some?
    ensures Dispatch(w.(invoke := invoke), step, call) == Dispatch(w, step, call)
    ensures Dispatch(w, step, call).kind in {ToolNotFound, ValidationError}
  {
  }

  /** The final node fills in what is missing, and overrides nothing. */
  lemma FinalizeFills(w: World, s: AgentState, step: nat)
    ensures var c := Advance(w, Config(FinalizeNode, s, step));
      && c.node == End
      && c.state == s.(terminationReason := c.state.terminationReason, finalAnswer := c.state.finalAnswer)
      && c.state.terminationReason == (if s.terminationReason.Some? then s.terminationReason else Some(FinalAnswer))
      && (if s.finalAnswer.Some? then c.state.finalAnswer == s.finalAnswer else MostRecent(s, c.state.finalAnswer))
  {
    MostRecentAnswerExact(s);
  }

  // ----- What the loop returns -----

  /** The state at the reason node of cycle `k`, if the run gets there. */
  ghost function ReasonState(w: World, s: AgentState, k: nat): AgentState
  {
    if k == 0 then s else Cycle(w, ReasonState(w, s, k - 1))
  }

  /** The content of the latest observation that has any, or the request when none has. */
  ghost predicate MostRecent(s: AgentState, answer: Option<string>)
  {
    || (exists i :: 0 <= i < |s.observations| && s.observations[i].content != ""
          && answer == Some(s.observations[i].content)
          && forall j | i < j < |s.observations| :: s.observations[j].content == "")
    || ((forall i | 0 <= i < |s.observations| :: s.observations[i].content == "") && answer == Some(s.userRequest))
  }

  lemma {:induction false} LastContentExact(observations: seq<Observation>, fallback: string)
    ensures
      || (exists i :: 0 <= i < |observations| && observations[i].content != ""
            && LastContent(observations, fallback) == observations[i].content
            && forall j | i < j < |observations| :: observations[j].content == "")
      || ((forall i | 0 <= i < |observations| :: observations[i].content == "")
          && LastContent(observations, fallback) == fallback)
    decreases |observations|
  {
    if observations != [] {
      var n := |observations| - 1;
      if observations[n].content == "" {
        LastContentExact(observations[..n], fallback);
        assert forall i | 0 <= i < n :: observations[..n][i] == observations[i];
      }
    }
  }

  lemma MostRecentAnswerExact(s: AgentState)
    ensures if s.finalAnswer.Some? && s.finalAnswer.value != "" then MostRecentAnswer(s) == s.finalAnswer.value
            else MostRecent(s, Some(MostRecentAnswer(s)))
  {
    LastContentExact(s.observations, s.userRequest);
  }

  /**
   * `r` ends a run from `s` that stopped at its first final decision, after `cycles`, or at the limit
   * when there was none before it.  The reason says which; the answer is the decided one, or else the
   * most recent observation; each completed cycle left one observation; nothing else changed.
   */
  ghost predicate Outcome(w: World, s: AgentState, r: AgentState, cycles: nat)
  {
    && r.iterationCount == s.iterationCount + cycles <= s.iterationLimit
    && |r.observations| == r.iterationCount
    && r == s.(observations := r.observations, iterationCount := r.iterationCount,
               finalAnswer := r.finalAnswer, terminationReason := r.terminationReason)
    && (forall k | 0 <= k < cycles :: !Choice(w, ReasonState(w, s, k)).isFinal)
    && (forall k | 0 <= k <= cycles && s.iterationCount + k < s.iterationLimit :: AtReason(ReasonState(w, s, k)))
    && r.observations == ReasonState(w, s, cycles).observations
    && (if r.iterationCount == s.iterationLimit then
          r.terminationReason == Some(IterationLimitReached) && MostRecent(r, r.finalAnswer)
        else
          var last := Choice(w, ReasonState(w, s, cycles));
          && r.terminationReason == Some(FinalAnswer) && last.isFinal
          && if last.answer.Some? then r.finalAnswer == last.answer else MostRecent(r, r.finalAnswer))
  }

  lemma OutcomeEarlier(w: World, s: AgentState, r: AgentState, rest: nat)
    requires AtReason(s) && !Choice(w, s).isFinal && Outcome(w, Cycle(w, s), r, rest)
    ensures Outcome(w, s, r, rest + 1)
  {
    forall k | 1 <= k <= rest + 1 ensures ReasonState(w, s, k) == ReasonState(w, Cycle(w, s), k - 1) {
      ReasonStateTail(w, s, k);
    }
  }

  lemma {:induction false} LoopOutcome(w: World, s: AgentState) returns (cycles: nat)
    requires AtReason(s)
    ensures Outcome(w, s, Loop(w, s), cycles)
    decreases s.iterationLimit - s.iterationCount
  {
    if Choice(w, s).isFinal {
      cycles := 0;
      MostRecentAnswerExact(s);
    } else {
      var next := Cycle(w, s);
      if next.iterationCount >= next.iterationLimit {
        cycles := 1;
        MostRecentAnswerExact(next);
        assert ReasonState(w, s, 1) == Cycle(w, ReasonState(w, s, 0));
      } else {
        var rest := LoopOutcome(w, next);
        OutcomeEarlier(w, s, Loop(w, next), rest);
        cycles := rest + 1;
      }
    }
  }

  lemma {:induction false} ReasonStateTail(w: World, s: AgentState, k: nat)
    requires k >= 1
    ensures ReasonState(w, s, k) == ReasonState(w, Cycle(w, s), k - 1)
  {
    if k > 1 {
      ReasonStateTail(w, s, k - 1);
    } else {
      assert ReasonState(w, s, 1) == Cycle(w, ReasonState(w, s, 0));
    }
  }

  /** Every node of a run, wherever it is cut, is reached in an orderly state. */
  ghost predicate Orderly(c: Config)
  {
    var s := c.state;
    match c.node
    case ReasonNode => AtReason(s) && c.step == 3 * s.iterationCount
    case ActNode =>
      |s.observations| == s.iterationCount < s.iterationLimit && c.step == 3 * s.iterationCount + 1
      && s.finalAnswer == None && s.terminationReason == None && s.pendingObservation == None
    case ObserveNode =>
      |s.observations| == s.iterationCount < s.iterationLimit && c.step == 3 * s.iterationCount + 2
      && s.finalAnswer == None && s.terminationReason == None && s.pendingObservation.Some?
    case FinalizeNode =>
      |s.observations| == s.iterationCount < s.iterationLimit && c.step == 3 * s.iterationCount + 1
      && s.terminationReason == Some(FinalAnswer)
    case FinalizeLimitNode =>
      |s.observations| == s.iterationCount == s.iterationLimit && c.step == 3 * s.iterationCount
      && s.terminationReason == None
    case End =>
      |s.observations| == s.iterationCount <= s.iterationLimit && s.finalAnswer.Some? && s.terminationReason.Some?
      && (s.terminationReason == Some(IterationLimitReached) <==> s.iterationCount == s.iterationLimit)
      && c.step <= 3 * s.iterationLimit + 1
  }

  lemma AdvanceOrderly(w: World, c: Config)
    requires Orderly(c) && c.node != End
    ensures Orderly(Advance(w, c))
    ensures Advance(w, c).state.iterationLimit == c.state.iterationLimit
  {
  }

  /** At every node of every run: counts, limit and steps agree. */
  lemma {:induction false} RunOrderly(w: World, c: Config, limit: nat)
    requires Orderly(c)
    ensures Orderly(Execute(w, c, limit))
    ensures Execute(w, c, limit).state.iterationLimit == c.state.iterationLimit
    decreases limit
  {
    if limit != 0 && c.node != End {
      AdvanceOrderly(w, c);
      RunOrderly(w, Advance(w, c), limit - 1);
    }
  }
}
