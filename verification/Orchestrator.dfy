/**
 * The two runners over the graph: `run`, which keeps the final state, and `stream_run`,
 * which folds node updates into overrides and yields an event per node.
 */
module Orchestrator {
  import opened Wrappers
  import opened AgentGraph

  const NODES_PER_CYCLE: nat := 3
  const RECURSION_BUFFER: nat := 10

  function RecursionLimit(iterationLimit: nat): nat
  {
    NODES_PER_CYCLE * iterationLimit + RECURSION_BUFFER
  }

  function Initial(runId: string, conversationId: string, request: string, context: seq<string>,
                   configured: Configured): (s: AgentState)
    ensures AtReason(s)
  {
    var (limit, flagged) := ResolveLimit(configured);
    AgentState(runId, conversationId, request, context, [], 0, limit, None, None, None, None, flagged)
  }

  /** The graph runtime raises when its backstop runs out before the end node. */
  datatype Error = RecursionError

  function Invoke(w: World, initial: AgentState): Result<AgentState, Error>
  {
    var last := Execute(w, Config(ReasonNode, initial, 0), RecursionLimit(initial.iterationLimit));
    if last.node == End then Ok(last.state) else Err(RecursionError)
  }

  /** The guard both runners apply to the state the graph leaves. */
  function Guarded(s: AgentState): AgentState
  {
    if s.terminationReason.Some? then s
    else
      s.(terminationReason := Some(FinalAnswer),
         finalAnswer := if s.finalAnswer.None? then Some(s.userRequest) else s.finalAnswer)
  }

  function Run(w: World, initial: AgentState): Result<AgentState, Error>
  {
    var raw := Invoke(w, initial);
    if raw.Ok? then Ok(Guarded(raw.value)) else raw
  }

  /** The guard fills in what is missing, and overrides nothing. */
  lemma GuardFills(s: AgentState)
    ensures var r := Guarded(s);
      && r.terminationReason.Some? && (s.terminationReason.Some? ==> r == s)
      && (s.terminationReason.None? ==>
            r == s.(terminationReason := Some(FinalAnswer), finalAnswer := r.finalAnswer)
            && r.finalAnswer == if s.finalAnswer.Some? then s.finalAnswer else Some(s.userRequest))
  {
  }

  // ----- Events -----

  datatype Event =
    | StartStep(runId: string)
    | ReasonStep(tool: bool)
    | ToolCallStep(name: Option<string>, arguments: Arguments, outcome: Option<Kind>)
    | ObserveStep(count: Option<nat>)

  function EventForNode(c: Chunk, pending: Option<ToolCall>): (Option<Event>, Option<ToolCall>)
  {
    match c.node
    case ReasonNode =>
      if c.update.pendingToolCall.Set? && c.update.pendingToolCall.value.Some?
      then (Some(ReasonStep(true)), c.update.pendingToolCall.value)
      else (Some(ReasonStep(false)), pending)
    case ActNode =>
      var outcome := if c.update.pendingObservation.Set? && c.update.pendingObservation.value.Some?
                     then Some(c.update.pendingObservation.value.value.kind) else None;
      (Some(match pending
            case None => ToolCallStep(None, map[], outcome)
            case Some(call) => ToolCallStep(Some(call.name), call.arguments, outcome)), None)
    case ObserveNode =>
      (Some(ObserveStep(if c.update.iterationCount.Set? then Some(c.update.iterationCount.value) else None)), pending)
    case _ => (None, pending)
  }

  function EventsOf(chunks: seq<Chunk>, pending: Option<ToolCall>): seq<Event>
    decreases |chunks|
  {
    if chunks == [] then []
    else
      var (event, next) := EventForNode(chunks[0], pending);
      (if event.Some? then [event.value] else []) + EventsOf(chunks[1..], next)
  }

  function PendingAfter(chunks: seq<Chunk>, pending: Option<ToolCall>): Option<ToolCall>
    decreases |chunks|
  {
    if chunks == [] then pending else PendingAfter(chunks[1..], EventForNode(chunks[0], pending).1)
  }

  function Folded(chunks: seq<Chunk>): Update
  {
    if chunks == [] then NOTHING
    else Merge(Folded(chunks[..|chunks| - 1]), chunks[|chunks| - 1].update)
  }

  lemma {:induction false} EventsSnoc(chunks: seq<Chunk>, last: Chunk, pending: Option<ToolCall>)
    ensures var (event, next) := EventForNode(last, PendingAfter(chunks, pending));
      && EventsOf(chunks + [last], pending) == EventsOf(chunks, pending) + (if event.Some? then [event.value] else [])
      && PendingAfter(chunks + [last], pending) == next
    decreases |chunks|
  {
    if chunks != [] {
      assert (chunks + [last])[1..] == chunks[1..] + [last];
      EventsSnoc(chunks[1..], last, EventForNode(chunks[0], pending).1);
    } else {
      assert (chunks + [last])[1..] == [];
    }
  }

  /** The streaming runner: one pass over the graph's update chunks. */
  method StreamRun(w: World, initial: AgentState) returns (events: seq<Event>, r: Result<AgentState, Error>)
    ensures var c := Config(ReasonNode, initial, 0);
      var chunks := Chunks(w, c, RecursionLimit(initial.iterationLimit));
      && events == [StartStep(initial.runId)] + EventsOf(chunks, None)
      && r == if Invoke(w, initial).Ok? then Ok(Guarded(Apply(initial, Folded(chunks)))) else Err(RecursionError)
  {
    events := [StartStep(initial.runId)];
    var chunks := Chunks(w, Config(ReasonNode, initial, 0), RecursionLimit(initial.iterationLimit));
    var overrides, pending: Option<ToolCall> := NOTHING, None;
    for i := 0 to |chunks|
      invariant events == [StartStep(initial.runId)] + EventsOf(chunks[..i], None)
      invariant pending == PendingAfter(chunks[..i], None)
      invariant overrides == Folded(chunks[..i])
    {
      assert chunks[..i + 1] == chunks[..i] + [chunks[i]];
      EventsSnoc(chunks[..i], chunks[i], None);
      overrides := Merge(overrides, chunks[i].update);
      var (event, next) := EventForNode(chunks[i], pending);
      pending := next;
      if event.Some? {
        events := events + [event.value];
      }
    }
    assert chunks[..|chunks|] == chunks;
    r := if Invoke(w, initial).Ok? then Ok(Guarded(Apply(initial, overrides))) else Err(RecursionError);
  }

  // ----- The backstop never fires, and both runners return the loop's state -----

  /** Both runs end within 3L + 1 nodes, and `run` returns what the bounded loop returns. */
  lemma RunIsLoop(w: World, initial: AgentState)
    requires AtReason(initial) && initial.iterationCount == 0
    ensures Run(w, initial) == Ok(Loop(w, initial))
    ensures RecursionLimit(initial.iterationLimit) == 3 * initial.iterationLimit + 10
    ensures |Chunks(w, Config(ReasonNode, initial, 0), RecursionLimit(initial.iterationLimit))|
         <= 3 * initial.iterationLimit + 1
  {
    ExecuteIsLoop(w, initial, RecursionLimit(initial.iterationLimit));
    var cycles := LoopOutcome(w, initial);
  }

  lemma MergeIsBoth(s: AgentState, u: Update, v: Update)
    ensures Apply(s, Merge(u, v)) == Apply(Apply(s, u), v)
  {
  }

  lemma {:induction false} FoldedChunks(w: World, c: Config, limit: nat, s: AgentState, before: seq<Chunk>)
    requires c.state == Apply(s, Folded(before))
    ensures Execute(w, c, limit).state == Apply(s, Folded(before + Chunks(w, c, limit)))
    decreases limit
  {
    if limit == 0 || c.node == End {
      assert before + [] == before;
    } else {
      var chunk := Chunk(c.node, NodeUpdate(w, c.node, c.step, c.state));
      assert (before + [chunk])[..|before|] == before;
      MergeIsBoth(s, Folded(before), chunk.update);
      FoldedChunks(w, Advance(w, c), limit - 1, s, before + [chunk]);
      assert before + [chunk] + Chunks(w, Advance(w, c), limit - 1) == before + Chunks(w, c, limit);
    }
  }

  /** Folding the streamed updates over the initial state gives the state `run` returns. */
  lemma OverridesGiveRun(w: World, initial: AgentState)
    requires AtReason(initial) && initial.iterationCount == 0
    ensures var chunks := Chunks(w, Config(ReasonNode, initial, 0), RecursionLimit(initial.iterationLimit));
      Run(w, initial) == Ok(Guarded(Apply(initial, Folded(chunks))))
  {
    RunIsLoop(w, initial);
    FoldedChunks(w, Config(ReasonNode, initial, 0), RecursionLimit(initial.iterationLimit), initial, []);
    var chunks := Chunks(w, Config(ReasonNode, initial, 0), RecursionLimit(initial.iterationLimit));
    assert [] + chunks == chunks;
  }

  /** The same request under other generated identifiers. */
  function Renamed(s: AgentState, run: string, conversation: string): AgentState
  {
    s.(runId := run, conversationId := conversation)
  }

  /** A strategy that does not look at the identifiers the runners generate. */
  ghost predicate IdBlind(w: World)
  {
    forall k: nat, s: AgentState, run: string, conversation: string ::
      w.select(k, Renamed(s, run, conversation)) == w.select(k, s)
  }

  lemma {:induction false} LoopIgnoresIds(w: World, s: AgentState, run: string, conversation: string)
    requires IdBlind(w)
    ensures Loop(w, Renamed(s, run, conversation)) == Renamed(Loop(w, s), run, conversation)
    decreases s.iterationLimit - s.iterationCount
  {
    var t := Renamed(s, run, conversation);
    assert Choice(w, t) == Choice(w, s);
    if !Choice(w, s).isFinal {
      assert Cycle(w, t) == Renamed(Cycle(w, s), run, conversation);
      if Cycle(w, s).iterationCount < s.iterationLimit {
        LoopIgnoresIds(w, Cycle(w, s), run, conversation);
      }
    }
  }

  /**
   * The streaming run of a request ends in the state of the blocking run, whatever run and
   * conversation identifiers either generates.
   */
  lemma StreamRefinesRun(w: World, initial: AgentState, run: string, conversation: string)
    requires AtReason(initial) && initial.iterationCount == 0 && IdBlind(w)
    ensures var streamed := Renamed(initial, run, conversation);
      var chunks := Chunks(w, Config(ReasonNode, streamed, 0), RecursionLimit(streamed.iterationLimit));
      && Invoke(w, streamed).Ok? && Run(w, initial).Ok?
      && Guarded(Apply(streamed, Folded(chunks))) == Renamed(Run(w, initial).value, run, conversation)
  {
    var streamed := Renamed(initial, run, conversation);
    OverridesGiveRun(w, streamed);
    RunIsLoop(w, streamed);
    RunIsLoop(w, initial);
    LoopIgnoresIds(w, initial, run, conversation);
  }

  /** Every run ends as `Outcome` says, and in particular with an answer and one reason. */
  lemma RunOutcome(w: World, initial: AgentState) returns (cycles: nat)
    requires AtReason(initial) && initial.iterationCount == 0
    ensures Run(w, initial).Ok?
    ensures var r := Run(w, initial).value;
      && Outcome(w, initial, r, cycles)
      && r.finalAnswer.Some? && r.terminationReason.Some?
      && |r.observations| == r.iterationCount <= initial.iterationLimit
      && (r.terminationReason == Some(IterationLimitReached) <==> r.iterationCount == initial.iterationLimit)
  {
    RunIsLoop(w, initial);
    cycles := LoopOutcome(w, initial);
  }

  /** A request is carried through its run, under the configured limit if that is valid and ten if not. */
  lemma RequestRun(w: World, runId: string, conversationId: string, request: string, context: seq<string>,
                   configured: Configured)
    ensures var result := Run(w, Initial(runId, conversationId, request, context, configured));
      && result.Ok?
      && var r := result.value;
         && r.runId == runId && r.conversationId == conversationId && r.userRequest == request && r.context == context
         && r.iterationLimit == (if configured.Integer? && 1 <= configured.n <= 100 then configured.n else 10)
         && (r.invalidLimitFlagged <==> configured != Absent && !(configured.Integer? && 1 <= configured.n <= 100))
         && r.iterationCount <= r.iterationLimit && r.pendingToolCall == None && r.pendingObservation == None
  {
    var cycles := RunOutcome(w, Initial(runId, conversationId, request, context, configured));
  }
}
