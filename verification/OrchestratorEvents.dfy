/**
 * The shape of the streamed events, when it is the documented one, and the runs of the
 * deterministic fallback strategy.
 */
module OrchestratorEvents {
  import opened Wrappers
  import opened AgentGraph
  import opened Orchestrator

  /** What one completed cycle called and saw. */
  datatype CycleLog = CycleLog(call: Option<ToolCall>, observation: Observation)

  function LogOf(w: World, s: AgentState): CycleLog
  {
    CycleLog(Choice(w, s).toolCall, Dispatch(w, 3 * s.iterationCount + 1, Choice(w, s).toolCall))
  }

  /** The cycles a run completes, in order. */
  function Log(w: World, s: AgentState): seq<CycleLog>
    decreases s.iterationLimit - s.iterationCount
  {
    if Choice(w, s).isFinal then []
    else
      var next := Cycle(w, s);
      [LogOf(w, s)] + if next.iterationCount >= next.iterationLimit then [] else Log(w, next)
  }

  lemma LogStep(w: World, s: AgentState)
    ensures var next := Cycle(w, s);
      Log(w, s) ==
        if Choice(w, s).isFinal then []
        else [LogOf(w, s)] + if next.iterationCount >= next.iterationLimit then [] else Log(w, next)
  {
  }

  function ToolEvent(c: CycleLog): Event
  {
    match c.call
    case None => ToolCallStep(None, map[], Some(c.observation.kind))
    case Some(call) => ToolCallStep(Some(call.name), call.arguments, Some(c.observation.kind))
  }

  /** The three events of each cycle, the first cycle being number `count + 1`. */
  function LogEvents(log: seq<CycleLog>, count: nat): seq<Event>
  {
    if log == [] then []
    else [ReasonStep(log[0].call.Some?), ToolEvent(log[0]), ObserveStep(Some(count + 1))]
           + LogEvents(log[1..], count + 1)
  }

  lemma LogEventsHead(first: CycleLog, rest: seq<CycleLog>, count: nat)
    ensures LogEvents([first] + rest, count)
         == [ReasonStep(first.call.Some?), ToolEvent(first), ObserveStep(Some(count + 1))] + LogEvents(rest, count + 1)
  {
    assert ([first] + rest)[1..] == rest;
  }

  lemma {:induction false} LogEventsAt(log: seq<CycleLog>, count: nat, i: nat)
    requires i < |log|
    ensures var events := LogEvents(log, count);
      && |events| == 3 * |log|
      && events[3 * i] == ReasonStep(log[i].call.Some?)
      && events[3 * i + 1] == ToolEvent(log[i])
      && events[3 * i + 2] == ObserveStep(Some(count + i + 1))
    decreases |log|
  {
    if i > 0 {
      LogEventsAt(log[1..], count + 1, i - 1);
    } else if |log| > 1 {
      LogEventsAt(log[1..], count + 1, 0);
    } else {
      assert log[1..] == [];
    }
  }

  function FinalEvents(r: AgentState): seq<Event>
  {
    if r.terminationReason == Some(FinalAnswer) then [ReasonStep(false)] else []
  }

  // ----- The events of the nodes are the events of the cycles -----

  function NodeEvents(w: World, c: Config, limit: nat, pending: Option<ToolCall>): seq<Event>
  {
    EventsOf(Chunks(w, c, limit), pending)
  }

  lemma EventsHead(w: World, c: Config, limit: nat, pending: Option<ToolCall>)
    requires limit > 0 && c.node != End
    ensures var (event, next) := EventForNode(Chunk(c.node, NodeUpdate(w, c.node, c.step, c.state)), pending);
      NodeEvents(w, c, limit, pending)
        == (if event.Some? then [event.value] else []) + NodeEvents(w, Advance(w, c), limit - 1, next)
  {
    var chunks := Chunks(w, c, limit);
    assert chunks[1..] == Chunks(w, Advance(w, c), limit - 1);
  }

  lemma EventsCycle(w: World, s: AgentState, limit: nat)
    requires AtReason(s) && limit >= 3 && !Choice(w, s).isFinal
    ensures var next := Cycle(w, s);
      var node := if next.iterationCount >= next.iterationLimit then FinalizeLimitNode else ReasonNode;
      NodeEvents(w, Config(ReasonNode, s, 3 * s.iterationCount), limit, None)
        == [ReasonStep(LogOf(w, s).call.Some?), ToolEvent(LogOf(w, s)), ObserveStep(Some(next.iterationCount))]
           + NodeEvents(w, Config(node, next, 3 * next.iterationCount), limit - 3, None)
  {
    hide Loop, Chunks, EventsOf;
    CycleNodes(w, s);
    var c := Config(ReasonNode, s, 3 * s.iterationCount);
    var c1 := Advance(w, c);
    EventsHead(w, c, limit, None);
    EventsHead(w, c1, limit - 1, Choice(w, s).toolCall);
    EventsHead(w, Advance(w, c1), limit - 2, None);
  }

  lemma EventsEnd(w: World, s: AgentState, limit: nat)
    requires limit >= 1
    ensures NodeEvents(w, Config(FinalizeLimitNode, s, 3 * s.iterationCount), limit, None) == []
  {
    var d := Config(FinalizeLimitNode, s, 3 * s.iterationCount);
    EventsHead(w, d, limit, None);
    assert Chunks(w, Advance(w, d), limit - 1) == [];
  }

  lemma EventsFinal(w: World, s: AgentState, limit: nat)
    requires AtReason(s) && limit >= 2 && Choice(w, s).isFinal
    ensures NodeEvents(w, Config(ReasonNode, s, 3 * s.iterationCount), limit, None) == [ReasonStep(false)]
  {
    var c := Config(ReasonNode, s, 3 * s.iterationCount);
    EventsHead(w, c, limit, None);
    EventsHead(w, Advance(w, c), limit - 1, None);
    assert Chunks(w, Advance(w, Advance(w, c)), limit - 2) == [];
  }

  function ObservationsOf(log: seq<CycleLog>): seq<Observation>
  {
    if log == [] then [] else [log[0].observation] + ObservationsOf(log[1..])
  }

  lemma {:induction false} ObservationsAt(log: seq<CycleLog>, i: nat)
    requires i < |log|
    ensures |ObservationsOf(log)| == |log| && ObservationsOf(log)[i] == log[i].observation
  {
    if |log| > 1 {
      ObservationsAt(log[1..], if i > 0 then i - 1 else 0);
    } else {
      assert log[1..] == [];
    }
  }

  /** A run's events are its log, plus one event for a final decision. */
  lemma {:induction false} EventsFollowLog(w: World, s: AgentState, limit: nat)
    requires AtReason(s) && limit >= NodesLeft(s)
    ensures NodeEvents(w, Config(ReasonNode, s, 3 * s.iterationCount), limit, None)
         == LogEvents(Log(w, s), s.iterationCount) + FinalEvents(Loop(w, s))
    decreases s.iterationLimit - s.iterationCount
  {
    hide NodeEvents, LogOf, Dispatch, Log, LogEvents;
    LogStep(w, s);
    if Choice(w, s).isFinal {
      EventsFinal(w, s, limit);
      NoLogEvents(s.iterationCount);
    } else {
      EventsCycle(w, s, limit);
      var next := Cycle(w, s);
      if next.iterationCount >= next.iterationLimit {
        EventsEnd(w, next, limit - 3);
        LogEventsHead(LogOf(w, s), [], s.iterationCount);
        NoLogEvents(s.iterationCount + 1);
      } else {
        EventsFollowLog(w, next, limit - 3);
        LogEventsHead(LogOf(w, s), Log(w, next), s.iterationCount);
      }
    }
  }

  lemma NoLogEvents(count: nat)
    ensures LogEvents([], count) == []
  {
  }

  /** A run's scratchpad is the observations of its log. */
  lemma {:induction false} StateFollowsLog(w: World, s: AgentState)
    requires AtReason(s)
    ensures Loop(w, s).observations == s.observations + ObservationsOf(Log(w, s))
    ensures Loop(w, s).iterationCount == s.iterationCount + |Log(w, s)|
    decreases s.iterationLimit - s.iterationCount
  {
    hide Loop, Log, LogOf, Cycle, ObservationsOf, AtReason;
    LogStep(w, s);
    LoopStep(w, s);
    var first := LogOf(w, s);
    ObservationsCons(first, []);
    if !Choice(w, s).isFinal {
      var next := Cycle(w, s);
      CycleObserves(w, s);
      if next.iterationCount < next.iterationLimit {
        StateFollowsLog(w, next);
        ObservationsCons(first, Log(w, next));
      }
    }
  }

  lemma CycleObserves(w: World, s: AgentState)
    requires AtReason(s)
    ensures var next := Cycle(w, s);
      && next.observations == s.observations + [LogOf(w, s).observation]
      && next.iterationCount == s.iterationCount + 1 && next.iterationLimit == s.iterationLimit
      && (next.iterationCount < next.iterationLimit ==> AtReason(next))
  {
  }

  lemma ObservationsCons(first: CycleLog, rest: seq<CycleLog>)
    ensures ObservationsOf([first] + rest) == [first.observation] + ObservationsOf(rest)
    ensures rest == [] ==> ObservationsOf(rest) == []
  {
    assert ([first] + rest)[1..] == rest;
  }

  // ----- The documented order of events -----

  /** After the start: `n` times (reason-tool, tool call, observe), then perhaps reason-final. */
  ghost predicate Shape(events: seq<Event>, n: nat)
  {
    && |events| >= 1 + 3 * n && events[0].StartStep?
    && (forall i | 0 <= i < n ::
          && events[3 * i + 1] == ReasonStep(true)
          && events[3 * i + 2].ToolCallStep?
          && events[3 * i + 3] == ObserveStep(Some(i + 1)))
    && (|events| == 1 + 3 * n || (|events| == 2 + 3 * n && events[3 * n + 1] == ReasonStep(false)))
  }

  /** Every tool decision of the run carried a call. */
  ghost predicate AllStaged(log: seq<CycleLog>)
  {
    forall i | 0 <= i < |log| :: log[i].call.Some?
  }

  function StreamedEvents(w: World, initial: AgentState): seq<Event>
  {
    [StartStep(initial.runId)]
      + NodeEvents(w, Config(ReasonNode, initial, 0), RecursionLimit(initial.iterationLimit), None)
  }

  /** The streamed events position by position, whatever the strategy decided. */
  lemma StreamedAt(w: World, initial: AgentState, i: nat)
    requires AtReason(initial) && initial.iterationCount == 0 && i < |Log(w, initial)|
    ensures var events := StreamedEvents(w, initial); var c := Log(w, initial)[i];
      && |events| > 3 * i + 3
      && events[3 * i + 1] == ReasonStep(c.call.Some?)
      && events[3 * i + 2] == ToolEvent(c)
      && events[3 * i + 3] == ObserveStep(Some(i + 1))
  {
    hide Log, LogEvents, Loop, NodeEvents, FinalEvents;
    EventsFollowLog(w, initial, RecursionLimit(initial.iterationLimit));
    LogEventsAt(Log(w, initial), 0, i);
  }

  lemma StreamedLength(w: World, initial: AgentState)
    requires AtReason(initial) && initial.iterationCount == 0
    ensures var events := StreamedEvents(w, initial); var n := |Log(w, initial)|;
      && events[0] == StartStep(initial.runId)
      && |events| == 1 + 3 * n + |FinalEvents(Loop(w, initial))|
      && (|events| == 2 + 3 * n ==> events[3 * n + 1] == ReasonStep(false))
  {
    hide Log, Loop, NodeEvents;
    EventsFollowLog(w, initial, RecursionLimit(initial.iterationLimit));
    if Log(w, initial) != [] {
      LogEventsAt(Log(w, initial), 0, 0);
    }
  }

  /**
   * Events come in the documented order exactly when every tool decision of the run
   * staged a call.  A decision without one is announced as final and then acted on.
   */
  lemma EventOrder(w: World, initial: AgentState)
    requires AtReason(initial) && initial.iterationCount == 0
    ensures (exists n :: Shape(StreamedEvents(w, initial), n)) <==> AllStaged(Log(w, initial))
  {
    hide Log, StreamedEvents, Loop;
    var events, log := StreamedEvents(w, initial), Log(w, initial);
    StreamedLength(w, initial);
    forall i | 0 <= i < |log|
      ensures events[3 * i + 1] == ReasonStep(log[i].call.Some?)
      ensures events[3 * i + 2].ToolCallStep?
      ensures events[3 * i + 3] == ObserveStep(Some(i + 1))
    {
      StreamedAt(w, initial, i);
    }
    if AllStaged(log) {
      assert Shape(events, |log|);
    } else {
      var i :| 0 <= i < |log| && log[i].call.None?;
      forall n ensures !Shape(events, n) {
        if i < n {
          assert events[3 * i + 1] != ReasonStep(true);
        }
      }
    }
  }

  /** A strategy whose tool decisions always carry a call yields the documented order. */
  lemma CallsGiveOrder(w: World, initial: AgentState)
    requires AtReason(initial) && initial.iterationCount == 0
    requires forall k: nat, s: AgentState :: !w.select(k, s).isFinal ==> w.select(k, s).toolCall.Some?
    ensures exists n :: Shape(StreamedEvents(w, initial), n)
  {
    EventOrder(w, initial);
    forall i | 0 <= i < |Log(w, initial)| ensures Log(w, initial)[i].call.Some? {
      LogAt(w, initial, i);
    }
  }

  /** A strategy that never answers and never names a tool. */
  function Unstaged(w: World): World
  {
    w.(select := (k, s) => Decision(false, None, None))
  }

  /** Every one of its runs is out of the documented order. */
  lemma UnstagedBreaksOrder(w: World, initial: AgentState)
    requires AtReason(initial) && initial.iterationCount == 0
    ensures !exists n :: Shape(StreamedEvents(Unstaged(w), initial), n)
  {
    EventOrder(Unstaged(w), initial);
    LogStep(Unstaged(w), initial);
    assert Log(Unstaged(w), initial)[0].call.None?;
  }

  /** Each tool-call event names the call decided just before and the outcome just observed. */
  lemma ToolEventsNameTheirCalls(w: World, initial: AgentState, i: nat)
    requires AtReason(initial) && initial.iterationCount == 0 && i < |Log(w, initial)|
    requires Choice(w, ReasonState(w, initial, i)).toolCall.Some?
    ensures var r := Loop(w, initial); var call := Choice(w, ReasonState(w, initial, i)).toolCall.value;
      && Run(w, initial) == Ok(r) && i < |r.observations| && 3 * i + 2 < |StreamedEvents(w, initial)|
      && r.observations[i].tool == Some(call.name)
      && StreamedEvents(w, initial)[3 * i + 2]
           == ToolCallStep(Some(call.name), call.arguments, Some(r.observations[i].kind))
  {
    RunIsLoop(w, initial);
    StateFollowsLog(w, initial);
    StreamedAt(w, initial, i);
    LogAt(w, initial, i);
    ObservationsAt(Log(w, initial), i);
    assert Loop(w, initial).observations[i] == Log(w, initial)[i].observation;
  }

  /** Each observation of a run is the outcome of the call decided in its cycle, under the called tool's name. */
  lemma ObservationsAreOutcomes(w: World, initial: AgentState, i: nat)
    requires AtReason(initial) && initial.iterationCount == 0 && i < |Log(w, initial)|
    ensures var r := Run(w, initial); var call := Choice(w, ReasonState(w, initial, i)).toolCall;
      && r.Ok? && |r.value.observations| == |Log(w, initial)|
      && OutcomeOfCall(w, 3 * i + 1, call, r.value.observations[i])
  {
    hide Dispatch, OutcomeOfCall, Run, Log, Loop;
    RunIsLoop(w, initial);
    StateFollowsLog(w, initial);
    ObservationsAt(Log(w, initial), i);
    LogAt(w, initial, i);
    ReasonCount(w, initial, i);
    DispatchExact(w, 3 * i + 1, Choice(w, ReasonState(w, initial, i)).toolCall);
  }

  lemma {:induction false} ReasonCount(w: World, s: AgentState, k: nat)
    ensures ReasonState(w, s, k).iterationCount == s.iterationCount + k
  {
    if k > 0 {
      ReasonCount(w, s, k - 1);
    }
  }

  lemma {:induction false} LogAt(w: World, s: AgentState, i: nat)
    requires i < |Log(w, s)|
    ensures Log(w, s)[i].call == Choice(w, ReasonState(w, s, i)).toolCall
    ensures Log(w, s)[i] == LogOf(w, ReasonState(w, s, i))
    ensures !Choice(w, ReasonState(w, s, i)).isFinal
    decreases i
  {
    hide Log, Cycle, Dispatch;
    LogStep(w, s);
    if i > 0 {
      var next := Cycle(w, s);
      assert Log(w, s)[i] == Log(w, next)[i - 1];
      ReasonStateTail(w, s, i);
      LogAt(w, Cycle(w, s), i - 1);
    }
  }

  // ----- The deterministic fallback strategy -----

  const RAG: string := "rag_search"

  function ComposeAnswer(observations: seq<Observation>, request: string): string
  {
    if observations == [] then request
    else
      var last := observations[|observations| - 1];
      if last.kind == ToolResult && last.content != "" then last.content
      else ComposeAnswer(observations[..|observations| - 1], request)
  }

  /** The latest tool result with any content, or the request when there is none. */
  lemma {:induction false} ComposeAnswerExact(observations: seq<Observation>, request: string)
    ensures var answer := ComposeAnswer(observations, request);
      || (exists i :: 0 <= i < |observations| && Usable(observations[i]) && answer == observations[i].content
            && forall j | i < j < |observations| :: !Usable(observations[j]))
      || ((forall i | 0 <= i < |observations| :: !Usable(observations[i])) && answer == request)
    decreases |observations|
  {
    if observations != [] && !Usable(observations[|observations| - 1]) {
      var n := |observations| - 1;
      ComposeAnswerExact(observations[..n], request);
      assert forall i | 0 <= i < n :: observations[..n][i] == observations[i];
    }
  }

  predicate Usable(o: Observation)
  {
    o.kind == ToolResult && o.content != ""
  }

  predicate RagObserved(s: AgentState)
  {
    exists i | 0 <= i < |s.observations| :: s.observations[i].tool == Some(RAG)
  }

  function FallbackSelect(s: AgentState, ragOffered: bool): Decision
  {
    if ragOffered && !RagObserved(s)
    then Decision(false, None, Some(ToolCall(RAG, map["query" := s.userRequest])))
    else Decision(true, Some(ComposeAnswer(s.observations, s.userRequest)), None)
  }

  /** The strategy in a world of arbitrary tools, offered or not from step to step. */
  ghost predicate FallbackWorld(w: World, offered: nat -> bool)
  {
    forall k: nat, s: AgentState :: w.select(k, s) == FallbackSelect(s, offered(k))
  }

  /**
   * Whatever the tools do, a fallback run acts at most once.  Offered the retrieval tool,
   * it acts once and then answers, or hits the limit when the limit is one; not offered
   * it, it answers the request at once.
   */
  lemma FallbackRun(w: World, offered: nat -> bool, initial: AgentState)
    requires AtReason(initial) && initial.iterationCount == 0 && FallbackWorld(w, offered)
    ensures var r := Run(w, initial); var o := Dispatch(w, 1, Some(ToolCall(RAG, map["query" := initial.userRequest])));
      && r.Ok?
      && r.value.observations == (if offered(0) then [o] else [])
      && r.value.terminationReason
           == Some(if offered(0) && initial.iterationLimit == 1 then IterationLimitReached else FinalAnswer)
      && r.value.finalAnswer == Some(
           if !offered(0) then initial.userRequest
           else if o.content == "" || (initial.iterationLimit > 1 && o.kind != ToolResult) then initial.userRequest
           else o.content)
  {
    RunIsLoop(w, initial);
    if offered(0) {
      var next := Cycle(w, initial);
      var o := next.observations[0];
      assert next.observations == [o] && o.tool == Some(RAG);
      assert next.observations[..0] == [];
      if next.iterationCount < next.iterationLimit {
        assert RagObserved(next);
        assert Choice(w, next) == FallbackSelect(next, offered(3));
        assert Loop(w, initial) == Loop(w, next);
        assert ComposeAnswer([], initial.userRequest) == initial.userRequest;
      } else {
        assert LastContent([], initial.userRequest) == initial.userRequest;
      }
    }
  }
}
