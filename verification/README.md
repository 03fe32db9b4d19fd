# AgentForge: verified model of the stateful core

This project models, in Dafny, the parts of AgentForge whose guarantees hold over runs of unbounded
length, and proves those guarantees.

| files | what they model |
|---|---|
| `PgIdentity`, `PgIdentitySafety`, `PgIdentityProgress`, `PgRefinement` | the locking transactions of the Postgres identity store, as a state machine over every interleaving, and how they refine the in-memory store |
| `Roster`, `Identity`, `IdentityStore`, `IdentityEffects`, `IdentityRuns` | the last-owner rule and the in-memory identity store with its redundant indexes |
| `AgentGraph`, `Orchestrator`, `OrchestratorEvents` | the bounded reason/act/observe graph, its blocking and streaming runners, and the fallback strategy |
| `Selection`, `SelectionScan`, `SelectionDecode` | the decision scanner and the JSON printer it undoes |
| `Audit` | the in-memory audit log behind a keyset cursor |
| `RateLimit` | the fixed-window limiter over a plain map and over expiring Redis keys |
| `Chunker`, `ShortTermMemory` | the sliding-window chunker and the FIFO scratchpad |
| `Ingestion`, `IngestionRuns` | document ingestion with duplicate detection and rollback |
| `GroqRetry` | the rate-limit retry loop |
| `Arithmetic`, `Wrappers` | facts about products, quotients and set sizes, and option and result types |

Code that updates state in place is a class or a method with a loop, proved against a function of the old
state; the properties are then lemmas about that function and about whole runs of it. `dafny verify
dfyconfig.toml` checks everything.

## Assumptions

- PostgreSQL at READ COMMITTED: a transaction's writes show at commit; a statement works on the rows
  committed when it began; a locking read that meets a conflicting row lock waits, then re-reads the row
  and skips it if it has been deleted, even when a new row has been inserted under the same key; row locks
  last to the end of the transaction. Foreign keys give an inserted team row a lock on its team. Waiting
  means that another transaction holds a conflicting lock; there is no queue of waiters.
- Generated identifiers are new when generated. Identifiers are natural numbers ordered like their
  canonical text.
- JSON parsing is a parameter of the scanner. Where a printed text is read back, the parser is assumed to
  return, on that printed text, the value printed; nothing else is assumed of it.
- The graph runtime runs nodes in edge order and merges their partial updates, the last write winning. A
  tool answers with a result or a `ToolError`; the selection strategy and the tools are arbitrary and may
  answer differently at each step. Argument validation is a parameter.
- The Redis limiter and its server share one clock that does not go backwards. A key whose expiry time has
  come is gone. The server runs INCR and EXPIRE without a failure between them.
- Ingestion runs one call at a time. Persisting is all or nothing and so is the rollback's deletion; a
  failing upsert may or may not have written its row. The answers of the extractor, the embedding provider
  and the stores are inputs of the model.
- Seconds are exact real numbers. Sleeping a negative time raises, as `time.sleep` does.

## Where the code and its description differ

The model follows the code. Each difference has a lemma that says exactly when it shows.

- `parse_decision` is described as descending into malformed wrappers and other actions
  (`src/agentforge/agent/selection.py:269-272`); an object that parses is never searched further
  (lines 151-157, 278-281). `SelectionDecode.ClosedWrapper` gives the condition and
  `SelectionDecode.OrderEnvelopeHidesAnswer` an input.
- A decision behind more than four unclosed braces is not found: `SelectionDecode.TruncatedDecision`.
- Events come in the documented order only if every tool decision carries a call. One without a call is
  announced as final and then acted on (`src/agentforge/agent/graph.py:217-222`,
  `src/agentforge/agent/orchestrator.py:219-235`): `OrchestratorEvents.EventOrder` gives the condition,
  `OrchestratorEvents.UnstagedBreaksOrder` an input.
- A budget strictly between 0 and 1 passes as positive and becomes 0
  (`src/agentforge/memory/short_term.py:57-66`): `ShortTermMemory.BudgetExact`.
- Chunks are paired with vectors by `zip` (`src/agentforge/ingestion/service.py:175`): a provider that
  returns too few vectors leaves a stored document incomplete: `IngestionRuns.PairedIds` and
  `IngestionRuns.RunCompleteExactly`.
- A negative wait hint is not clamped (`src/agentforge/llm/groq_provider.py:177-180`), so a wait may cost
  less than the margin, or nothing, and the retry loop need not end. `GroqRetry.EndsExactly` says when it
  does, for all hints; hints that tend to minus a quarter second are the failing case
  (`GroqRetry.VanishingNeverEnds`), and hints bounded away from it are enough (`GroqRetry.BoundedHintsEnd`).

## Model

| member | source | states |
|---|---|---|
| PgIdentitySafety.OwnerForever | src/agentforge/enterprise/identity.py:497-563 | Under every interleaving of role changes, removals, team additions, aborts and membership inserts, once an organization has a committed owner it has one in every later committed state |
| PgIdentitySafety.TeamRowsBacked | src/agentforge/enterprise/identity.py:592-651 | In every reachable state each committed team membership belongs to a live team whose organization the user is a committed member of |
| PgIdentitySafety.DecisionOnCommittedRoster | src/agentforge/enterprise/identity.py:497-515 | When the rule is applied, the locked roster is exactly the committed roster, except memberships inserted after the snapshot |
| PgIdentitySafety.StepKeepsInv | src/agentforge/enterprise/identity.py:497-563 | Every action of any transaction keeps: locks compatible, locked rows as they were read, snapshot rows locked or pending, team rows backed |
| PgIdentitySafety.LocksStayCompatible | src/agentforge/enterprise/identity.py:505-515 | A transaction that waits for nobody can take its next lock without clashing with one held |
| PgIdentitySafety.OtherStatement | src/agentforge/enterprise/identity.py:537-563 | A statement or commit leaves intact what every lock-compatible transaction relies on |
| PgIdentitySafety.CommitKeepsOwner | src/agentforge/enterprise/identity.py:517-535 | A commit that demotes or removes an owner leaves another owner among the locked rows |
| PgIdentityProgress.NoWaitCycle | src/agentforge/enterprise/identity.py:505-515 | No reachable state has a cycle of waits, among any number of transactions |
| PgIdentityProgress.WaitsAscend | src/agentforge/enterprise/identity.py:505-515 | Along a chain of waits the awaited users strictly ascend |
| PgIdentityProgress.SomeTransactionCanStep | src/agentforge/enterprise/identity.py:505-515 | In every reachable state with an unfinished transaction, some unfinished transaction is not blocked and makes a step |
| PgIdentityProgress.EveryRunCanFinish | src/agentforge/enterprise/identity.py:497-563 | Every reachable state can be driven, by statements alone, to one where all transactions have finished |
| PgIdentityProgress.EveryScheduleFinishes | src/agentforge/enterprise/identity.py:497-651 | From every reachable state every schedule of statements is bounded in length, and one that cannot be extended has finished every transaction |
| PgRefinement.CommitsAreOperations | src/agentforge/enterprise/identity.py:517-651 | In every reachable state a committing role change, removal or team addition does to the committed rows what the in-memory operation does, and that operation is not refused; other statements change no row |
| PgRefinement.RosterDecides | src/agentforge/enterprise/identity.py:517-563 | What was decided on the locked roster holds on the committed one at commit, also with owners inserted since the snapshot |
| PgRefinement.DecisionIsInMemoryDecision | src/agentforge/enterprise/identity.py:497-563 | In every reachable state a decision is the in-memory one on the committed rows less the memberships inserted since the snapshot: not found exactly when the member is absent, last owner exactly when the rule says so, and going on to the write exactly otherwise |
| PgRefinement.AloneIsOperation | src/agentforge/enterprise/identity.py:517-651 | A role change, removal or team addition that runs alone ends with the outcome of the in-memory operation, done or the same refusal, and leaves the rows that operation leaves |
| PgRefinement.AddedMembership | src/agentforge/enterprise/identity.py:429-455 | An inserted membership is the in-memory addition |
| PgRefinement.RemovedTeamMember | src/agentforge/enterprise/identity.py:702-717 | A removed team member is the in-memory removal |
| PgRefinement.DeletedTeam | src/agentforge/enterprise/identity.py:677-686 | A deleted team is the in-memory deletion, unless an addition holds the team |
| PgRefinement.CreatedTeam | src/agentforge/enterprise/identity.py:566-590 | A created team is the in-memory creation, names aside |
| PgRefinement.SharersDoNotWait | src/agentforge/enterprise/identity.py:608-625 | Two team additions never wait for each other |
| PgIdentity.RosterRowsExact | src/agentforge/enterprise/identity.py:497-515 | The ordered roster snapshot holds exactly the organization's committed rows |
| Roster.OrphansOwnerExact | src/agentforge/enterprise/identity.py:68-94 | `orphans_owner` is true exactly when the change takes the roster from some owner to none |
| Roster.ChangedEntries | src/agentforge/enterprise/identity.py:68-94 | What a roster holds after one user's change or removal |
| IdentityStore.InMemoryIdentityStore.CreateUser | src/agentforge/enterprise/identity.py:110-127 | The new state and result, including the refusal of a taken e-mail; indexes stay consistent |
| IdentityStore.InMemoryIdentityStore.GetUserByEmail | src/agentforge/enterprise/identity.py:129-132 | The lookup through the index finds the one user with this e-mail, or there is none |
| IdentityStore.InMemoryIdentityStore.CreateOrganization | src/agentforge/enterprise/identity.py:152-156 | The new state; nothing else changes |
| IdentityStore.InMemoryIdentityStore.AddMembership | src/agentforge/enterprise/identity.py:163-177 | The new state, or the refusal of a second membership |
| IdentityStore.InMemoryIdentityStore.OrgRoles | src/agentforge/enterprise/identity.py:196-200 | The loop collects exactly the organization's memberships |
| IdentityStore.InMemoryIdentityStore.UpdateMembershipRole | src/agentforge/enterprise/identity.py:202-215 | The new state; absent membership and last owner change nothing |
| IdentityStore.InMemoryIdentityStore.RemoveMembership | src/agentforge/enterprise/identity.py:217-231 | The membership and the user's team rows of that organization go together; a refusal changes nothing |
| IdentityStore.InMemoryIdentityStore.CreateTeam | src/agentforge/enterprise/identity.py:234-246 | The team and its name index entry appear together, or the name is refused |
| IdentityStore.InMemoryIdentityStore.AddTeamMember | src/agentforge/enterprise/identity.py:248-272 | Only a member of the team's organization is added; adding again returns the first row |
| IdentityStore.InMemoryIdentityStore.DeleteTeam | src/agentforge/enterprise/identity.py:286-295 | Team, name index entry and team rows go together; another organization's team is left alone |
| IdentityStore.InMemoryIdentityStore.RemoveTeamMember | src/agentforge/enterprise/identity.py:304-308 | Exactly one team row goes, and only through its own organization |
| IdentityStore.InMemoryIdentityStore.DropTeamMembers | src/agentforge/enterprise/identity.py:217-231 | The deletion loop removes exactly the doomed team rows |
| Identity.RolesDecide | src/agentforge/enterprise/identity.py:196-231 | The rule on the collected roster is the rule on the membership map |
| Identity.RemoveMembershipKeepsInv | src/agentforge/enterprise/identity.py:217-231 | Removing a membership leaves no team row without one |
| Identity.DeleteTeamKeepsInv | src/agentforge/enterprise/identity.py:286-295 | Deleting a team keeps the name index equal to the teams and leaves no dangling row |
| IdentityRuns.ReachableConsistent | src/agentforge/enterprise/identity.py:97-308 | In every reachable state the e-mail index is a bijection with the users, the name index is the teams, and team rows are backed |
| IdentityEffects.CreateUserEffect | src/agentforge/enterprise/identity.py:110-127 | Refused exactly when a user has the e-mail; otherwise the lookup finds the new user with the given hash, and nothing else changes |
| IdentityEffects.AddMembershipEffect | src/agentforge/enterprise/identity.py:163-177 | Refused exactly when there is one; otherwise the given role is stored, and nothing else changes |
| IdentityEffects.UpdateRoleEffect | src/agentforge/enterprise/identity.py:202-215 | A change alters one role and nothing else, not even the joining time |
| IdentityEffects.RemoveMembershipEffect | src/agentforge/enterprise/identity.py:217-231 | The membership and exactly the user's team rows in the organization go |
| IdentityEffects.CreateTeamEffect | src/agentforge/enterprise/identity.py:234-246 | Refused exactly when the organization has a team of this name |
| IdentityEffects.AddTeamMemberEffect | src/agentforge/enterprise/identity.py:248-272 | Each refusal exactly; a row that is there is kept as it was |
| IdentityEffects.DeleteTeamEffect | src/agentforge/enterprise/identity.py:286-295 | The team, its name and exactly its rows go, for its own organization only |
| IdentityEffects.RemoveTeamMemberEffect | src/agentforge/enterprise/identity.py:304-308 | Afterwards the row is gone, every other is as before, and the result says whether it was there |
| IdentityEffects.AddThenRemoveTeamMember | src/agentforge/enterprise/identity.py:248-308 | Removing a team member just added restores the store |
| IdentityRuns.OwnerForever | src/agentforge/enterprise/identity.py:202-231 | Under every sequence of operations an organization with an owner keeps one |
| IdentityRuns.UpdateRefusedExactly | src/agentforge/enterprise/identity.py:202-215 | A role change is refused exactly when it would take the last owner |
| IdentityRuns.RemovalRefusedExactly | src/agentforge/enterprise/identity.py:217-231 | A removal is refused exactly when it would take the last owner |
| IdentityRuns.OthersUntouched | src/agentforge/enterprise/identity.py:97-308 | An operation on one organization changes nothing any other organization sees |
| IdentityRuns.RunOnOthers | src/agentforge/enterprise/identity.py:97-308 | Nor does any run of operations on others |
| IdentityRuns.CreateThenDeleteTeam | src/agentforge/enterprise/identity.py:234-295 | Deleting a team just created restores the whole store |
| IdentityRuns.AddThenRemoveMembership | src/agentforge/enterprise/identity.py:163-231 | Removing a membership just added restores the store, except that the first owner cannot be removed |
| IdentityRuns.RemoveThenAddMembership | src/agentforge/enterprise/identity.py:217-231 | A member who returns has no team left in the organization; others keep theirs |
| AgentGraph.ResolveLimit | src/agentforge/agent/state.py:32-56 | The limit is always in 1..100, is 10 when absent or invalid, and flagged when invalid |
| AgentGraph.ExecuteIsLoop | src/agentforge/agent/graph.py:157-358 | With enough node budget the graph ends where a plain bounded loop ends |
| AgentGraph.LoopOutcome | src/agentforge/agent/graph.py:283-325 | A run stops at its first final decision, or at the limit when there is none before; the answer is the decided one, or else the content of the latest observation that has any, or else the request; each cycle left one observation and nothing else changed |
| AgentGraph.MostRecentAnswerExact | src/agentforge/agent/graph.py:124-136 | An answer already there is kept; otherwise it is the latest observation with content, or the request |
| AgentGraph.OnlyValidCallsInvoke | src/agentforge/agent/graph.py:214-240 | A tool that is not registered or is called with invalid arguments is not invoked |
| AgentGraph.FinalizeFills | src/agentforge/agent/graph.py:301-313 | The final node fills in what is missing and overrides nothing |
| AgentGraph.AdvanceOrderly | src/agentforge/agent/graph.py:157-325 | Each node keeps count, observations, step number and termination fields in step |
| AgentGraph.RunOrderly | src/agentforge/agent/graph.py:157-325 | At every node of every run the observation count equals the iteration count, below the limit at reason nodes, and at most 3L+1 nodes execute |
| Orchestrator.StreamRun | src/agentforge/agent/orchestrator.py:147-212 | The streaming loop's events and final state are those of the graph's updates, whatever they are |
| Orchestrator.RunIsLoop | src/agentforge/agent/orchestrator.py:105-145 | `run` returns what the bounded loop returns after at most 3L+1 nodes, so the 3L+10 backstop never fires |
| Orchestrator.RunOutcome | src/agentforge/agent/orchestrator.py:105-145 | Every run ends as LoopOutcome says, with an answer, and with reason iteration-limit exactly when the count equals the limit |
| Orchestrator.RequestRun | src/agentforge/agent/orchestrator.py:125-145 | A request keeps its identifiers, text and context through its run, under the configured limit or ten |
| Orchestrator.OverridesGiveRun | src/agentforge/agent/orchestrator.py:188-212 | Folding the streamed updates over the initial state gives the state `run` returns |
| Orchestrator.StreamRefinesRun | src/agentforge/agent/orchestrator.py:147-212 | The streamed run of a request ends in the state of the blocking run, up to the run and conversation identifiers either generates |
| OrchestratorEvents.EventOrder | src/agentforge/agent/orchestrator.py:214-257 | Events are start, (reason-tool, tool call, observe 1, 2, ...), perhaps reason-final, exactly when every tool decision carried a call |
| OrchestratorEvents.CallsGiveOrder | src/agentforge/agent/orchestrator.py:214-257 | A strategy whose tool decisions always carry a call yields the documented order |
| OrchestratorEvents.UnstagedBreaksOrder | src/agentforge/agent/orchestrator.py:219-235 | A strategy that never answers and never names a tool yields events out of that order in every run |
| OrchestratorEvents.StreamedAt | src/agentforge/agent/orchestrator.py:214-257 | The three events of each cycle, at their positions, for every strategy |
| OrchestratorEvents.StreamedLength | src/agentforge/agent/orchestrator.py:188-212 | How many events a run yields |
| OrchestratorEvents.ToolEventsNameTheirCalls | src/agentforge/agent/orchestrator.py:236-243 | A tool-call event names the tool and arguments just decided and the outcome just observed, and the observation carries the tool's name |
| OrchestratorEvents.StateFollowsLog | src/agentforge/agent/graph.py:193-211 | The scratchpad is the observations of the completed cycles, in order |
| OrchestratorEvents.ObservationsAreOutcomes | src/agentforge/agent/graph.py:214-255 | Each observation of a run says what became of its call: nothing staged, not found, invalid arguments with the error, a tool error with its message, or the tool's own content and data |
| OrchestratorEvents.ComposeAnswerExact | src/agentforge/agent/selection.py:326-332 | The fallback answer is the latest tool result with content, or the request |
| OrchestratorEvents.FallbackRun | src/agentforge/agent/selection.py:312-332 | Under the fallback strategy a run acts at most once whatever the tool does, ends in final-answer when L is at least 2 and in iteration-limit after one act when L is 1, and its answer is given |
| Selection.IterJsonObjects | src/agentforge/agent/selection.py:104-166 | The scanning loop yields what the recursive specification finds, and all its calls together scan at most budget+1 characters per character of the text |
| Selection.ParseRegion | src/agentforge/agent/selection.py:144-158 | A balanced region is yielded if it parses as an object and otherwise searched inside, within its share of the scan budget |
| Selection.ParseDecision | src/agentforge/agent/selection.py:266-286 | The first object that is a decision, whatever objects stand before it; when there is none, the text, stripped if it looks like an envelope; after scanning at most five times the text |
| Selection.FirstDecisionExact | src/agentforge/agent/selection.py:278-281 | The decision read is the first there is, and there is none only when no object is one |
| SelectionScan.ObjectsSound | src/agentforge/agent/selection.py:104-166 | Every find is a balanced region that parses as the object yielded; finds are disjoint and in increasing position |
| SelectionScan.RegionFirst | src/agentforge/agent/selection.py:128-158 | After a neutral prefix a balanced region is handled first, and the scan goes on behind it |
| SelectionScan.WrapperOpen | src/agentforge/agent/selection.py:159-166 | A wrapper never closed yields what its inside yields with one descent less |
| SelectionScan.BalancedAnywhere | src/agentforge/agent/selection.py:128-143 | A balanced region is passed at any depth without going below it |
| SelectionDecode.ObjectsCompose | src/agentforge/agent/selection.py:104-166 | What follows a region is searched as if it stood alone |
| SelectionDecode.EncodeBalanced | src/agentforge/agent/selection.py:104-158 | Every printed object, nested and escaped in any way, is one balanced region to the scanner |
| SelectionDecode.DecisionOfFields | src/agentforge/agent/selection.py:169-189 | The fields printed for a decision read back as that decision |
| SelectionDecode.AliasReadExactly | src/agentforge/agent/selection.py:169-189 | The alias `tool_name` is read exactly when `tool` is absent, null, false, zero or empty; the name must be a string that is not empty, and arguments that are not an object read as none |
| SelectionDecode.FinalReadExactly | src/agentforge/agent/selection.py:184-189 | A final action needs a string answer, and other actions are no decisions |
| SelectionDecode.GetExact | src/agentforge/agent/selection.py:169-189 | The last binding of a key is read, and an absent key as null |
| SelectionDecode.DecisionRecovered | src/agentforge/agent/selection.py:104-286 | A printed decision is returned from inside any nest of at most four unclosed or malformed wrappers |
| SelectionDecode.TruncatedDecision | src/agentforge/agent/selection.py:104-286 | Behind unclosed wrappers the decision is returned exactly when at most four are open; otherwise the text is prose |
| SelectionDecode.BareDecision | src/agentforge/agent/selection.py:266-286 | Without a wrapper the suffix is arbitrary, and the prefix may hold stray closing braces |
| SelectionDecode.DecisionBehindForeign | src/agentforge/agent/selection.py:104-286 | Behind any number of objects that are no decision, a decision is returned, wrapped or not |
| SelectionDecode.ForeignSkipped | src/agentforge/agent/selection.py:278-281 | Objects that are no decision change neither what is decided behind them nor that nothing is |
| SelectionDecode.ClosedWrapper | src/agentforge/agent/selection.py:144-158 | A decision inside a closed wrapper is read when the wrapper does not parse, and hidden when it does |
| SelectionDecode.OrderEnvelopeHidesAnswer | src/agentforge/agent/selection.py:266-286 | An "order" envelope that parses hides the final answer inside it |
| Audit.AuditLog.Record | src/agentforge/enterprise/audit.py:260-262 | The event is appended, and returned |
| Audit.AuditLog.ListForOrg | src/agentforge/enterprise/audit.py:264-293 | The filter loop, sort and cut return the specified page |
| Audit.PageMeaning | src/agentforge/enterprise/audit.py:264-293 | A page is newest first, holds only matching events behind the cursor, and misses one only when full of newer ones |
| Audit.PageOrder | src/agentforge/enterprise/audit.py:290-292 | Later events first, and the greater identifier first among equal times |
| Audit.PageFilters | src/agentforge/enterprise/audit.py:276-289 | Every event of a page is of the organization asked for, and meets the action, actor, time and cursor filters |
| Audit.FilteredOnPage | src/agentforge/enterprise/audit.py:276-293 | An event that meets every filter is on the page, unless that is full of newer ones |
| Audit.OtherOrganizationsInvisible | src/agentforge/enterprise/audit.py:276-293 | A page is the same when the other organizations' events are removed from the log |
| Audit.NegativeLimit | src/agentforge/enterprise/audit.py:293 | A negative limit drops that many of the oldest |
| Audit.FollowOwn | src/agentforge/enterprise/audit.py:264-293 | A reader who follows the cursor sees only events of the organization asked for that meet the filters |
| Audit.NothingTwice | src/agentforge/enterprise/audit.py:264-293 | With arbitrary appends between pages the concatenated pages strictly descend, so no event comes twice |
| Audit.EachOnce | src/agentforge/enterprise/audit.py:264-293 | Every matching event present at the first page is returned at exactly one position once a short page is seen |
| Audit.ReaderFinishes | src/agentforge/enterprise/audit.py:264-293 | On a log that does not grow the reader sees a short page after as many pages as it takes |
| Audit.NewerAppends | src/agentforge/enterprise/audit.py:264-293 | When the events appended between pages are newer than those present, the reader finishes and has seen exactly the log of the first page, newest first |
| Audit.StillLog | src/agentforge/enterprise/audit.py:264-293 | With no appends the pages together are the whole filtered log, newest first |
| Audit.DescendingUnique | src/agentforge/enterprise/audit.py:283-290 | There is only one newest-first arrangement of given events |
| RateLimit.MapRateLimiter.Check | src/agentforge/enterprise/rate_limit.py:101-108 | The counter map after a request, and the decision |
| RateLimit.RedisRateLimiter.Check | src/agentforge/enterprise/rate_limit.py:59-70 | INCR on a live or expired key, then EXPIRE, and the decision |
| RateLimit.LimitersAgree | src/agentforge/enterprise/rate_limit.py:59-108 | On every request sequence with a clock that does not go back, expiring keys decide like keys that never expire |
| RateLimit.LiveKeys | src/agentforge/enterprise/rate_limit.py:59-70 | At any time a principal has at most two live keys |
| RateLimit.DecisionsExact | src/agentforge/enterprise/rate_limit.py:101-108 | A request is admitted exactly when fewer than `max` earlier requests of its principal share its window |
| RateLimit.CountedTogetherExactly | src/agentforge/enterprise/rate_limit.py:101-106 | Requests are counted together exactly when one principal made them in one window, windows being counted from time zero |
| RateLimit.WindowBound | src/agentforge/enterprise/rate_limit.py:101-108 | A window admits exactly the smaller of `max` and its requests |
| RateLimit.IntervalBound | src/agentforge/enterprise/rate_limit.py:101-108 | Any interval as long as a window admits at most twice `max` |
| RateLimit.IntervalBoundMet | src/agentforge/enterprise/rate_limit.py:101-108 | The bound is met for every window and `max` |
| RateLimit.PrincipalsIndependent | src/agentforge/enterprise/rate_limit.py:101-108 | A principal is decided as if no other existed |
| Chunker.MakeConfig | src/agentforge/chunking/chunker.py:78-92 | Accepts exactly 0 <= overlap < max |
| Chunker.ChunkText | src/agentforge/chunking/chunker.py:98-137 | The loop ends and returns the specified chunks |
| Chunker.EarlyReturnIsLoop | src/agentforge/chunking/chunker.py:100-136 | The single-chunk early return is what the loop would produce |
| Chunker.LoopIsChunks | src/agentforge/chunking/chunker.py:112-136 | The loop from any chunk on produces the rest of the chunks |
| Chunker.ChunkShape | src/agentforge/chunking/chunker.py:98-137 | Every chunk has its generated id, document, position and length at most max; every later one records the overlap, equal to the previous chunk's tail, and adds a character |
| Chunker.RoundTrip | src/agentforge/chunking/chunker.py:98-137 | Concatenating the chunks without their recorded overlaps gives back the text |
| Chunker.ChunkCount | src/agentforge/chunking/chunker.py:100-136 | A text longer than max has 1 + ceil((n - max) / step) chunks |
| Chunker.Coverage | src/agentforge/chunking/chunker.py:100-136 | The chunks that hold a position are consecutive, at least one and at most ceil(max / step) |
| ShortTermMemory.Memory.InitShortTerm | src/agentforge/memory/short_term.py:44-54 | A valid budget starts afresh; an invalid one changes nothing |
| ShortTermMemory.Memory.AddShortTerm | src/agentforge/memory/short_term.py:73-83 | Appends and evicts, keeps the request, and raises exactly when not initialized or when the request alone exceeds the budget |
| ShortTermMemory.Memory.EnforceBudget | src/agentforge/memory/short_term.py:85-96 | The eviction loop against its specification |
| ShortTermMemory.Memory.TotalSize | src/agentforge/memory/short_term.py:103-107 | The loop sums the request and all entries |
| ShortTermMemory.RetainsLongestSuffix | src/agentforge/memory/short_term.py:73-107 | After any adds the entries are the longest suffix of the whole history that fits with the request |
| ShortTermMemory.WithinBudget | src/agentforge/memory/short_term.py:85-96 | The context fits the budget, or is the request alone when that does not fit |
| ShortTermMemory.TotalExact | src/agentforge/memory/short_term.py:103-107 | Every entry counts for its own size |
| ShortTermMemory.BudgetExact | src/agentforge/memory/short_term.py:57-66 | Refused exactly when not a positive number; otherwise the greatest whole number not above it, which is zero exactly below one |
| Ingestion.IngestionService.Ingest | src/agentforge/ingestion/service.py:97-191 | Result and both stores after a call, at every failure point |
| Ingestion.IngestionService.Commit | src/agentforge/ingestion/service.py:171-181 | Vectors one by one, then the records; stops at the first failure |
| Ingestion.IngestionService.CommitOrRollBack | src/agentforge/ingestion/service.py:171-184 | All of the vectors and the records, or no change at all |
| Ingestion.RollbackRestores | src/agentforge/ingestion/service.py:182-184 | Deleting the new document's vectors undoes the upserts, however far they got |
| Ingestion.UpsertedExact | src/agentforge/ingestion/service.py:173-180 | The rows present after any number of upserts |
| Ingestion.FindByHash | src/agentforge/storage/memory_store.py:59-68 | Finds a document of the organization with the hash exactly when there is one |
| IngestionRuns.ReachableConsistent | src/agentforge/ingestion/service.py:97-191 | After every run document ids are distinct, each organization and hash has at most one document, every vector belongs to a stored document, and documents are complete exactly when no call was short of vectors |
| IngestionRuns.RefusedExactly | src/agentforge/ingestion/service.py:107-159 | When each early error is reported, and when a duplicate is; a refusal stores nothing |
| IngestionRuns.LateFaultsExactly | src/agentforge/ingestion/service.py:171-184 | A failing upsert among the pairs is reported first, then a failing persist |
| IngestionRuns.StoredDocument | src/agentforge/ingestion/service.py:150-191 | A stored document is the upload's, and its chunks put together are the extracted text |
| IngestionRuns.StoredRows | src/agentforge/ingestion/service.py:173-180 | Each paired chunk has its own vector, under its document and organization |
| IngestionRuns.StepKeepsInv | src/agentforge/ingestion/service.py:97-191 | One call keeps those invariants |
| IngestionRuns.PairedIds | src/agentforge/ingestion/service.py:173-180 | A new document's vector ids are its first chunk ids, and all of them exactly when the provider returned enough vectors |
| IngestionRuns.RunCompleteExactly | src/agentforge/ingestion/service.py:157-180 | From any stores, a run leaves every document complete exactly when it was before and no call was short of vectors |
| IngestionRuns.OtherVectorsKept | src/agentforge/ingestion/service.py:171-184 | A call leaves the vectors of every other document where they are |
| IngestionRuns.OnlyEffectiveCalls | src/agentforge/ingestion/service.py:121-191 | Failed and duplicate calls can be deleted from a run; the others stored one document each, in order |
| IngestionRuns.ReuploadFindsFirst | src/agentforge/ingestion/service.py:121-142 | Ingesting the same bytes again, at any later point, reports the first document and changes nothing |
| IngestionRuns.WithoutThePortStoredTwice | src/agentforge/ingestion/service.py:132-142 | A sink without the lookup stores the same content twice |
| GroqRetry.Generate | src/agentforge/llm/groq_provider.py:145-184 | Whenever some attempt has a verdict, the loop ends with the first one: every attempt before it was slept on for its delay, within the configured wait, and the verdict is the completion, the failure, giving up because the next wait would exceed the budget, or a negative sleep |
| GroqRetry.DelayKeepsHint | src/agentforge/llm/groq_provider.py:177-180 | The wait asked for is kept, with a quarter second more, up to five seconds in all |
| GroqRetry.EndsExactly | src/agentforge/llm/groq_provider.py:155-184 | For every service and budget the loop ends exactly when some attempt is not rate limited, asks for a negative wait, or brings the sum of the waits above the budget |
| GroqRetry.BoundedHintsEnd | src/agentforge/llm/groq_provider.py:167-184 | With any sequence of hints bounded away from minus a quarter second the loop ends |
| GroqRetry.NonNegativeHints | src/agentforge/llm/groq_provider.py:167-184 | With hints that are not negative each sleep is in 0.25 to 5 seconds, their sum within the budget, and there are at most four per second of it |
| GroqRetry.VanishingNeverEnds | src/agentforge/llm/groq_provider.py:167-184 | A sequence of hints, all above minus a quarter second, on which the loop does not end for any budget from a quarter second up |
| GroqRetry.ConstantHintEndsExactly | src/agentforge/llm/groq_provider.py:167-184 | With one constant hint the loop fails to end exactly when the hint is minus a quarter second |

## Left out

- GroqRetry.Generate: its contract is for services on which the loop ends; EndsExactly says which these are.
- Orchestrator.StreamRefinesRun: compares runs of strategies that do not look at the generated run and conversation identifiers, because the two runners generate different ones.
- Listing operations of the identity stores (their order, `list_users_by_ids`), cascades from deleted users and organizations, password hashing: sorting and lookups only.
- The Postgres audit log and `admit_metadata`: the same query as SQL, and a field filter.
- `looks_like_decision_envelope` and `_strip_envelope`: prose heuristics, parameters of `ParseDecision`.
- `build_selection_prompt`, `extract_citations`, trace recording, tenant context: plumbing around the graph.
- `validate_arguments` in detail: a parameter that accepts or rejects with a message.
- Tool exceptions other than `ToolError`, which abort a run.
- LangGraph itself, `json.loads`, the Redis client, SQL text, thread pools and timeouts.
- Redis failures between INCR and EXPIRE, and clocks that differ between processes.
- Markdown normalization, HTML and PDF extraction, embeddings: the text and the vectors are inputs.
- Size budgets given as NaN or infinity.
- Concurrent ingests, and stores whose deletion fails during rollback.
- `_retry_after_seconds` and `_parse_duration`: they yield the hint, an input of the loop.
