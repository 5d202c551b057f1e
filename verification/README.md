# Task tracker: graphs, events, audit, claims and codes

A Dafny model of the parts of the task tracker whose behaviour is not visible from one function body: the
dependency-graph endpoint, the event bus and the SSE replay buffer, the hash-chained audit trail, base32
token text, the digest manifest used when there is no version control, the claim protocol, and the
device-authorization store. Where the source changes state in place the model is a class or a method with
loops, proved against a specification function; the promises are lemmas about that specification over every
input or every run.

`dafny verify dfyconfig.toml` checks the whole project.

## How the files fit together

| subject | files |
|---|---|
| dependency graph | `sorting`, `project_graph`, `topology`, `unfolding`, `text_lines`, `outline`, `coverage`, `graph_service`, `determinism`, `expansion` |
| event bus | `bus_trace` (what a program of emits, transactions, throws and catches should deliver), `event_bus` (the bus) |
| SSE | `event_log` (buffer and replay as functions of the history), `sse_client` (runs with reconnects), `sse_honesty` (when losses are announced), `sse_admission` (connection caps), `sse_manager` (the class), `sse_session` (a stream of the class is what the client receives) |
| audit trail | `json_text`, `hash_chain`, `audit_trail` |
| tokens | `base32` (text, decoder, accumulator arithmetic), `base32_encoder` (the encoder on 32-bit patterns) |
| digest manifest | `digest_manifest` |
| claims | `claim_store` (statements and sweep), `claim_runs` (interleavings) |
| device flow | `device_flow` |

The dependency graph has one specification: `Unfolding.Unfold`, the preorder of everything below a task on a
branch, with no cap. It is total on cyclic graphs because the tasks already on the branch grow inside the
finite task table. Both capped walks are proved to emit exactly its first 1000 rows. `GraphService.Answers`
collects what a response must be; every promise across formats is a lemma about it. `Expansion` says the same
without `Unfold`, by tasks and edges alone.

Hashes are never assumed injective. A result about the audit trail ends in `Evidence`: nothing, a concrete
collision, or a concrete preimage of the genesis value; `AuditTrail.EvidenceBreaksHash` turns the evidence
into two different payload texts with one hash.

## Where the code and its own documentation or promises part

- The tree's `truncated` flag is also raised when exactly 1000 rows exist, nothing is missing, and the last
  row is not a revisit; the text flag is not, and the schema promises that the expansion stopped early.
  `GraphService.FlagsDiffer` gives the exact condition, `GraphService.FlagsDifferOnThousandTasks` a project.
- A resume is meant to be complete or announced by `replay-gap`. It can be neither. `EventLog.ReplayIsExactOrHonest`
  says, for every history, clock, filter and id, exactly when a replay is complete and exactly when a loss goes
  unannounced; `SseClient.CompleteIffNothingMissed` says it for whole runs of a client. The cases are:
  - an entry expired from the middle of the buffer, because its event was stamped before the one broadcast ahead of
    it. A reaction inside a transaction is broadcast before the event that caused it
    (`BusTrace.ReactionCommitsFirst`, then `EventLog.OutOfOrderStampsLoseSilently`);
  - an id from before a restart, when the numbering began again (`EventLog.StaleIdLosesSilently`);
  - the id 0, which never gets a gap message (`EventLog.ZeroResumesSilently`, `EventLog.ZeroMissesFirstEvent`); a
    negative id acts as 0, and an unreadable one as an id past the log (`EventLog.PositionActsTheSame`);
  - no id, when the connection drops before anything was received (`SseHonesty.FreshConnectsLoseSilently`,
    `SseHonesty.DroppedBeforeFirstEvent`).

  When clock and timestamps never go back, a positive id of the same process is always answered honestly
  (`EventLog.TimedReplayIsHonest`, `SseHonesty.ExactlyOnceOrHonest`).
- `slice(-maxBufferSize)` with a size of 0 keeps everything; the model does the same.
- Connection caps are checked in one step and the connection is registered in a later one. Caps hold exactly
  when there is still room at registration (`SseAdmission.RegistrationKeepsCapsIff`); two early checks can
  overrun (`SseAdmission.EarlyCheckOverruns`).
- The size and mtime fast path promises never to miss a same-size edit in the tick of the baseline. Edits after
  the capture are never missed. An edit between the hashing of the file and the capture can be, when the capture
  falls into a later tick (`DigestManifest.RacyBaselineDefeatsFastPath`), and so can a file moved over another one,
  because it keeps its mtime (`DigestManifest.MoveDefeatsFastPath`), and a file restored with its old mtime
  (`DigestManifest.RestoreDefeatsFastPath`). `DigestManifest.FastPathIsExact` gives the
  exact condition for the fast scan to equal a full re-hash, over all runs.
- A sweep finds and releases in separate statements. In between the claim may be renewed
  (`ClaimRuns.SplitSweepReleasesRenewedClaim`), or the task released and assigned again by an update, which sets no
  claim time (`ClaimRuns.SplitSweepReleasesAssignedTask`), and it is released all the same.
  `ClaimRuns.SplitSweepIsSafeIff` says exactly when the split is harmless.
- `update` can clear an assignee without a release (`ClaimRuns.UpdateFreesWithoutRelease`), and it does not bump
  the version, although a comment on renewal says that every write does (`ClaimRuns.VersionStep`).
- A user code is given up on after 33 taken candidates, not 32 (`DeviceFlow.FirstFreeIsFirst`). A device code drawn
  again while in use leaves a user code behind that stands for the new session
  (`DeviceFlow.InsertKeepsInverseIff`).

## Model

| member | source | states |
|---|---|---|
| Sorting.SortIsUnique | src/services/dependency-graph.service.ts:203-221 | every sort routine that returns an ordered permutation under a total order returns the same sequence, so the model does not depend on the engine's sort |
| ProjectGraph.ListingOrderIsTotal | src/services/dependency-graph.service.ts:203-216 | the comparator is a total order on the tasks, and lists a task no later than another iff the other does not belong ahead of it: more urgent, or equally urgent and newer, or equally old with a lower id |
| ProjectGraph.SortIsWellListed | src/services/dependency-graph.service.ts:203-216 | in a list sorted with the comparator no later task belongs ahead of an earlier one |
| Topology.RankingExcludesCycle | src/services/dependency-graph.service.ts:298-306 | a graph with a topological ranking has no cycle: the two meanings of the labels exclude each other |
| Topology.RemnantHasCycle | src/services/dependency-graph.service.ts:339-348 | a nonempty remnant in which every node has a predecessor contains a real cycle (backward walk and pigeonhole) |
| Topology.DrainedDecides | src/services/dependency-graph.service.ts:338-348 | when the frontier is empty: all nodes drained iff a ranking exists, not all drained iff a cycle exists |
| Topology.DrainNode | src/services/dependency-graph.service.ts:340-346 | draining one node takes its edges out of the pending counts and pushes exactly the nodes that become free |
| Topology.Drain | src/services/dependency-graph.service.ts:338-347 | the drain loop terminates and drains each node at most once; all tasks are drained iff a topological ranking exists, fewer iff a cycle exists |
| Topology.ClassifyFromInDegree | src/services/dependency-graph.service.ts:324-349 | FLAT iff no edges, DAG iff edges and a topological ranking exist, DAG_CYCLIC iff a real cycle exists; duplicate edges and self-loops included |
| Topology.ClassifyTopologyInline | src/services/dependency-graph.service.ts:307-316 | the same exact classification when the in-degrees are counted afresh |
| Unfolding.BuildTreeNode | src/services/dependency-graph.service.ts:373-442 | the emitted subtree is the first rows of the unbounded unfolding that still fit under the shared counter, nested by depth; counter and flag are exact |
| Unfolding.BuildSiblings | src/services/dependency-graph.service.ts:408-432 | the same for the sibling loop, which stops and raises the flag at the cap |
| Unfolding.BuildForest | src/services/dependency-graph.service.ts:265-294 | the forest's preorder is the first min(N, 1000) rows of the unbounded unfolding of all roots; flag raised iff `TreeCut` |
| Unfolding.AppendSubtree | src/services/dependency-graph.service.ts:273-285 | appending a capped subtree keeps the forest equal to a prefix of the unbounded preorder |
| TextLines.TextRenderer.Walk | src/services/dependency-graph.service.ts:465-509 | one walk prints exactly the lines of the rows that still fit, with trunk and connector determined by the branch |
| TextLines.TextRenderer.RenderTextLines | src/services/dependency-graph.service.ts:457-519 | the lines are those of the first min(N, 1000) rows of the same unbounded unfolding; flag raised iff more than 1000 rows exist |
| TextLines.LineReadsBack | src/services/dependency-graph.service.ts:479-488 | whatever its title contains, a printed line gives back its depth and its task id |
| TextLines.SampleLabel | src/services/dependency-graph.service.ts:479-488 | a label spelled out: number, glyph, title, priority in parentheses |
| TextLines.LabelSymbols | src/services/dependency-graph.service.ts:67-75 | which statuses and priorities each glyph and name stands for, in both directions |
| Outlines.FoldUndoesListing | src/services/dependency-graph.service.ts:417-441 | folding a depth-annotated preorder rebuilds the forest it was listed from and leaves what follows untouched |
| Outlines.TextFoldsToTree | src/services/dependency-graph.service.ts:457-519 | folding the lines by their indentation rebuilds exactly the ids and nesting of the tree format, truncated and cyclic projects included |
| Coverage.ShownIffReachable | src/services/dependency-graph.service.ts:373-442 | on any graph a task is in the unbounded unfolding iff a root reaches it: the branch-local visited set hides nothing |
| Coverage.ShownOncePerBranch | src/services/dependency-graph.service.ts:394-441 | on any graph, cycles included, a task occurs at depth d once for every branch of d edges from a root to it, where a branch stops at a task it has passed before; branches are counted over the edges alone |
| Coverage.ReachableFromSource | src/services/dependency-graph.service.ts:218-221 | in an acyclic graph every task is reached from some in-degree-0 task |
| Coverage.ShownOncePerPath | src/services/dependency-graph.service.ts:353-366 | on an acyclic graph a task occurs at depth d once for every walk of d edges from a root: there the branches are the walks |
| GraphService.LoadTasks | src/services/dependency-graph.service.ts:127-140 | with a count that is not too low the paging loop returns the whole table; it terminates on count drift |
| GraphService.SourcesExact | src/services/dependency-graph.service.ts:218-221 | the root list holds exactly the tasks nothing points at |
| GraphService.RootsExist | src/services/dependency-graph.service.ts:218-237 | a nonempty project always has a root; without sources it is a single synthetic one |
| GraphService.RootsAreListed | src/services/dependency-graph.service.ts:218-237 | the roots are in listing order, and a synthetic root is a task that no other task belongs ahead of |
| GraphService.BuildContext | src/services/dependency-graph.service.ts:191-217 | the tables told by tasks and edges: every task under its id, for every task the tasks it blocks once per edge and in listing order, and the number of edges into it |
| GraphService.BuildDependencyGraph | src/services/dependency-graph.service.ts:102-295 | every format returns what `Answers` demands: exact topology, exact totals, capped unfolding, sorted permutation of nodes and edges |
| GraphService.GraphIsListedById | src/services/dependency-graph.service.ts:244-262 | the nodes of the graph format ascend by id and its edges by source, then by target |
| GraphService.FormatsAgree | src/services/dependency-graph.service.ts:244-294 | for one project the tree and the text are the same forest, cut at the same node |
| GraphService.FlagsDiffer | src/services/dependency-graph.service.ts:268-286 | text truncated iff rows are missing; it implies tree truncated, which implies the cap was reached; the exact case in which they differ |
| GraphService.FlagsDifferOnThousandTasks | src/schemas/dependency-graph.schema.ts:75-76 | for a thousand tasks without dependencies the tree shows all of them and still claims truncation, the text does not |
| GraphService.AcyclicShowsEveryPath | src/services/dependency-graph.service.ts:187-237 | FLAT or DAG and not truncated: every task occurs, and at each depth as often as there are edge paths to it from the in-degree-0 tasks |
| GraphService.TextShowsReachable | src/services/dependency-graph.service.ts:457-519 | on any project an untruncated text shows a task iff a root reaches it |
| GraphService.TreeShowsEveryBranch | src/services/dependency-graph.service.ts:373-442 | on any project an untruncated tree shows each task at each depth once for every branch from a root to it |
| GraphService.TextShowsEveryBranch | src/services/dependency-graph.service.ts:457-519 | the same of an untruncated text, told by the depth and id read back from its lines |
| Determinism.FlatteningIsUnique | src/services/dependency-graph.service.ts:417-441 | a forest is determined by its depth-annotated preorder, so the specification of the tree format admits one answer |
| Determinism.ReadOrderIsIrrelevant | src/services/dependency-graph.service.ts:202-216 | whatever order the database returns tasks and dependencies in, each format gives the same response |
| Expansion.TreeIsExpansion | src/services/dependency-graph.service.ts:373-442 | every tree response, cyclic projects included, is the whole expansion of the project cut after the first 1000 nodes of its preorder: a node tells title, status, priority and number of incoming edges of its task, its children are the tasks it blocks, once per edge and in listing order, and it has none when it is already on its branch |
| Expansion.TextIsDrawnExpansion | src/services/dependency-graph.service.ts:457-519 | every text response is the drawing of that same expansion cut after its first 1000 lines: label, connector and trunk of every line are spelled out from the node and its place among its siblings |
| BusTrace.TransactionIsAtomic | src/events/event-bus.ts:101-147 | a transaction commits all that its body commits, in order, or nothing at all if it throws |
| BusTrace.ThenCommits | src/events/event-bus.ts:114-119 | what two steps in sequence commit is what each commits, concatenated: a later failure never takes back an earlier commit |
| BusTrace.SameEmits | src/events/event-bus.ts:62-86 | immediate and deferred listeners hear of the same emits, each once, in possibly different orders |
| BusTrace.ReactionCommitsFirst | src/events/event-bus.ts:62-86 | inside a transaction the events of a bypass listener's reaction commit before the event that caused it |
| BusTrace.OtherReactionsDoNotRun | src/events/event-bus.ts:62-86 | what an emit does is unchanged when the reaction of any listener is replaced that is not a bypass listener of the event's name |
| BusTrace.EmitAlone | src/events/event-bus.ts:62-86 | an emit for whose name there is no bypass listener is just that one emit, and it does not throw |
| BusTrace.BypassReactionsRun | src/events/event-bus.ts:68-86 | the reaction of every bypass listener of the event's name takes place, all its emits and failed transactions included, inside and outside transactions |
| BusTrace.CalledInSlotOrder | src/events/event-bus.ts:68-86 | the call of a listener comes first in an emit when no earlier bypass listener of the name reacts, and last when none from its own slot on does |
| BusTrace.ThrowLaws | src/events/event-bus.ts:101-147 | steps in sequence may be grouped at will, a step that does nothing may be left out, nothing runs after a throw, and what came before it stays |
| BusTrace.CatchLaws | src/events/event-bus.ts:101-147 | a handler runs exactly after a throw, in its place; what the body did before stays; a throw of the handler goes on to the next one |
| EventBuses.EventBus.RunProgram | src/events/event-bus.ts:62-147 | for every nested program a normal listener receives exactly the events of its name whose every enclosing transaction returned, each once, in commit order; a bypass listener receives every emit of its name at once; the buffer stack ends empty |
| EventBuses.EventBus.EmitEvent | src/events/event-bus.ts:62-86 | one emit reaches bypass listeners at once and queues the event in the innermost buffer, or delivers it when none is open |
| EventBuses.EventBus.RunInTransaction | src/events/event-bus.ts:101-147 | whatever the body does, exactly one buffer is pushed and popped; merge, flush or drop match the trace |
| EventBuses.ExecutedClosed | src/events/event-bus.ts:110-146 | closing a transaction turns what its buffer collected into what the enclosing scope has committed |
| EventLog.BufferIsSelected | src/events/sse-manager.ts:189-194 | whatever the clocks do, the buffer holds entries of the log, each once, with increasing ids |
| EventLog.NextBuffer | src/events/sse-manager.ts:290-301 | whatever the clocks do, a broadcast adds at most its own entry: what has left the buffer never returns |
| EventLog.IncrementalPruning | src/events/sse-manager.ts:189-194 | when clock and timestamps never go back and events are fresh when broadcast, pruning at every broadcast leaves exactly the longest suffix of the whole log within size and age: contiguous ids ending at the newest |
| EventLog.ReplayIsExactOrHonest | src/events/sse-manager.ts:248-288 | for every history, clock, filter and id, and for a client that is owed the events after any id up to that one: the replay is exactly what is owed iff nothing owed has left the buffer or lies at or below the id; a gap message is never sent without a loss; and the exact condition for a loss without a gap message |
| EventLog.MatchesUnlessWithheld | src/events/sse-manager.ts:204-224 | an event passes a filter iff its type is in the list, if there is one, and it has the requested project, unless none or 0 was asked for or the event carries none |
| EventLog.SelectionIsUnique | src/events/sse-manager.ts:282-287 | entries of the log in increasing order are determined by which they are, so complete means equal as a sequence |
| EventLog.TimedReplayIsHonest | src/events/sse-manager.ts:250-261 | on a well-timed history a positive id gets the gap message iff some later id has left the buffer, and misses nothing without it |
| EventLog.StaleIdGetsNothing | src/events/sse-manager.ts:257-287 | an id past the whole log, as after a restart, gets no event and no gap message; it misses every matching event of this process |
| EventLog.OutOfOrderStampsLoseSilently | src/events/sse-manager.ts:295-300 | a run with a nondecreasing clock and fresh events, stamped in the order of a cascade, in which a positive id misses an event with no gap message |
| EventLog.StaleIdLosesSilently | src/events/sse-manager.ts:257-261 | a run after a restart in which the id of the earlier process misses the only event with no gap message |
| EventLog.PositionActsTheSame | src/api/routes/events.ts:150-152 | a negative parsed id acts as 0 and an unparsable one as the newest id, in the replay and in the gap test |
| EventLog.PruneKeeps | src/events/sse-manager.ts:290-301 | of the newest `maxBufferSize` entries (all, for 0) one pruning keeps exactly those younger than the TTL, and never more than the bound |
| EventLog.PruneKeepsSuffix | src/events/sse-manager.ts:290-301 | when timestamps ascend, that is the longest suffix of the buffer within both bounds |
| EventLog.ZeroResumesSilently | src/events/sse-manager.ts:257-260 | resuming with 0 never gets a gap message; for every filter and clock, events are missing iff one that passes the filter has left the buffer |
| EventLog.ZeroMissesFirstEvent | src/events/sse-manager.ts:257-260 | a run of two broadcasts into a buffer of one in which resuming with 0 silently misses the first |
| SseClient.ReceivedIsSound | src/events/sse-manager.ts:113-288 | over any run, with any id and any clocks, a client receives genuine matching events it is owed, each once, in strictly increasing order |
| SseClient.ConnectCompletesIff | src/events/sse-manager.ts:113-141 | a connect with an id completes the client iff nothing due has left the buffer or lies at or below the id, apart from what it has |
| SseClient.StaysGone | src/events/sse-manager.ts:248-301 | an event that a reconnect could not bring is never received later |
| SseClient.CompleteIffNothingMissed | src/events/sse-manager.ts:113-288 | over any run, with any id and any clocks, a connected client has received all that is due iff at no connect of the run something due was gone; until then what it has is a prefix of it |
| SseHonesty.ExactlyOnceOrHonest | src/events/sse-manager.ts:113-288 | on a well-timed history a client with a positive id of this process, or with none, has a prefix of what is due as long as no replay-gap was sent, and all of it while connected |
| SseHonesty.FreshConnectsLoseSilently | src/events/sse-manager.ts:132-135 | with any clocks, a client without an id has everything since it began to listen iff nothing due was gone at a connect and no matching event fell before its last connect without an id |
| SseHonesty.DroppedBeforeFirstEvent | src/events/sse-manager.ts:132-135 | a run in which a client without an id drops before the first event and never gets it |
| SseAdmission.RegistrationKeepsCapsIff | src/api/routes/events.ts:114-160 | registering a connection keeps the total, per-key and per-address caps iff there is room at that moment |
| SseAdmission.CapsHold | src/api/routes/events.ts:114-160 | over every run in which each registration directly follows its check, no cap is ever exceeded |
| SseAdmission.EarlyCheckOverruns | src/api/routes/events.ts:114-160 | two checks before two registrations overrun a cap |
| SseManager.OpeningKeepsCapsIff | src/events/sse-manager.ts:113-136 | opening a stream, replay included, keeps the caps iff the admission check would still accept |
| SseManager.OfferedKeepsCaps | src/events/sse-manager.ts:196-201 | a broadcast never breaks a cap |
| SseManager.SSEManager.CanAccept | src/events/sse-manager.ts:93-111 | accepts iff there is room under all three caps; the reason names the first cap without room; the retry delay is 30 seconds |
| SseManager.SSEManager.AddConnection | src/events/sse-manager.ts:113-141 | registers the connection; with any parsed resume id its stream holds exactly the buffered events after the id that the filter does not withhold, by event type and project, and the gap message with the id asked for and the least id there is when that is due; it is closed iff one of these sends fails; no other connection changes |
| SseSession.OpeningMirrors | src/events/sse-manager.ts:113-141 | what opening a stream writes to it is what the client model receives at its connect, gap included |
| SseSession.StreamIsReceived | src/events/sse-manager.ts:113-202 | from the opening on, through any broadcasts, failing sends to others, openings and closings of others, the events written to a connection's stream are what the client model receives |
| SseSession.StreamCarriesWhatIsAskedFor | src/events/sse-manager.ts:113-224 | from its opening on a stream carries only logged events whose type and project were asked for, told by the fields of event and filter, and every such event that is broadcast |
| SseManager.SSEManager.ReplayEvents | src/events/sse-manager.ts:248-288 | appends the gap message if due, then every buffered event after the id that passes the filter, once and in order; a failing send closes the connection; every successful event send is counted |
| SseManager.ReplayStep | src/events/sse-manager.ts:282-287 | one entry of the buffer keeps the replay on its specification, whether it matches, whether its send fails, and whether the connection is already closed |
| SseManager.ReplayCatchesUp | src/events/sse-manager.ts:248-288 | after a replay the stream holds exactly the buffered events after the id whose type and project the filter does not withhold, and the gap message iff it is due |
| SseManager.SSEManager.Broadcast | src/events/sse-manager.ts:189-202 | numbers, buffers and prunes the event; writes it to exactly the connections whose filter does not withhold its type or its project, and closes exactly those of them whose send fails; every other connection stays as it is |
| SseManager.SSEManager.PruneEventBuffer | src/events/sse-manager.ts:290-301 | exactly the newest entries younger than the TTL survive, at most `maxBufferSize` of them; when timestamps ascend they are the longest suffix within both bounds |
| SseManager.SSEManager.HeartbeatSweep | src/events/sse-manager.ts:313-336 | closes exactly the connections past the age limit and those whose ping fails |
| JsonText.StringReadsBack | src/repositories/audit-event.repository.ts:80-84 | an escaped string reads back to the same text, whatever follows its closing quote |
| JsonText.StringifyReadsBack | src/repositories/audit-event.repository.ts:85-99 | a serialized array of strings and nulls reads back to exactly that array |
| JsonText.ShortEscapes | src/repositories/audit-event.repository.ts:80-84 | every short escape, character by character |
| JsonText.OtherEscapes | src/repositories/audit-event.repository.ts:80-84 | a control character and a lone surrogate as lower-case \u escapes, a surrogate pair as it is |
| AuditTrail.PayloadIsInjective | src/repositories/audit-event.repository.ts:85-99 | canonical payloads are equal iff the previous hash and the content of every field are; null and the text "null" are kept apart |
| AuditTrail.PayloadReads | src/repositories/audit-event.repository.ts:85-99 | the payload is an array of the domain tag, the previous hash and the nine columns, in the order of the source |
| HashChain.DigestPinsPrefix | src/repositories/audit-event.repository.ts:102-106 | two intact prefixes with the same last hash have the same length and contents, or a collision or genesis preimage is exhibited |
| HashChain.TailPinsHistory | src/repositories/audit-event.repository.ts:217-232 | two intact trails with the same tail hash are the same history, or a collision or genesis preimage is exhibited |
| HashChain.DisplacementIsCaught | src/repositories/audit-event.repository.ts:198-210 | after any deletion, duplication or permutation of rows, verification stops at the first row that is out of place; only truncation of the tail passes |
| HashChain.EditIsCaught | src/repositories/audit-event.repository.ts:205-207 | a row whose content was changed is caught at that row, or at the next one if its hash was recomputed; only the last row can be replaced unnoticed |
| AuditTrail.EvidenceBreaksHash | src/repositories/audit-event.repository.ts:43-106 | evidence is two different payload texts with one hash, or a payload hashing to the genesis value |
| AuditTrail.AuditEventRepository.Append | src/repositories/audit-event.repository.ts:167-196 | appends one row linked to the tail, to 64 zero digits in an empty trail; changes no other row, and leaves the trail intact iff it was |
| AuditTrail.AuditEventRepository.VerifyChain | src/repositories/audit-event.repository.ts:217-232 | answers null iff the trail is intact, otherwise the id of the first broken row |
| Base32Encoder.ShiftedBits | src/services/pat-hash.ts:36 | on 32-bit patterns, shifting left by eight and or-ing a byte in is multiplication modulo 2^32 and addition on the value |
| Base32Encoder.GroupBits | src/services/pat-hash.ts:40 | on 32-bit patterns, the unsigned right shift masked with 0x1f is a quotient and a remainder of the value |
| Base32Encoder.LastBits | src/services/pat-hash.ts:45 | on 32-bit patterns, the left shift masked with 0x1f is a product modulo 2^32 and a remainder of the value |
| Base32.ShiftIn | src/services/pat-hash.ts:36 | with at most 4 live bits the 32-bit wrap of the accumulator loses none of them when a byte is shifted in |
| Base32.LeftAlign | src/services/pat-hash.ts:43-46 | the last group is the remaining bits followed by zeros |
| Base32Encoder.EmitGroups | src/services/pat-hash.ts:38-41 | the inner loop moves bits from the accumulator to the text, five at a time, and loses none |
| Base32Encoder.EncodeBase32 | src/services/pat-hash.ts:31-48 | working on a 32-bit accumulator, yields the big-endian 5-bit grouping of section 6 of RFC 4648 without padding, with ceil(8n/5) characters |
| Base32.DecodeRecovers | src/services/pat-hash.ts:31-48 | a decoder recovers the bytes from every encoding |
| Base32.EncodingIsUnique | src/services/pat-hash.ts:31-48 | there is only one text that encodes given bytes |
| Base32.AlphabetIsLettersThenDigits | src/services/pat-hash.ts:22 | a character stands for i iff it is the letter numbered i from A, below 26, or the digit i - 24, up to 31 |
| Base32.EncodesFo | src/services/pat-hash.ts:31-48 | the vector "fo" of section 10 of RFC 4648, without padding |
| DigestManifest.PathOrderIsTotal | src/scm/none.ts:275 | the path comparator is a total order on entries with distinct paths |
| DigestManifest.LexIsFirstDifference | src/scm/none.ts:275 | a path is at most another iff it is equal, a proper start of it, or smaller at the first character where they differ |
| DigestManifest.EnumerationOrderIsIrrelevant | src/scm/none.ts:216-277 | the manifest entries, and so its id, are the same for every directory enumeration order |
| DigestManifest.BuildEntries | src/scm/none.ts:216-277 | one entry per file: the recorded one for a regular file with its recorded size and mtime whose mtime is before the cutoff, otherwise size, mtime and hash of its content; in strictly ascending order of paths |
| DigestManifest.DiffEntries | src/scm/none.ts:314-336 | lists a path as added iff it is new, as modified iff both have it with different digests, as deleted iff it is gone; each at most once |
| DigestManifest.DiffIsPatch | src/scm/none.ts:314-336 | applying the reported changes to the old path-to-digest map gives the new one; no changes iff the maps agree |
| DigestManifest.Status | src/scm/none.ts:393-410 | fails without a baseline; otherwise lists exactly the added, modified and deleted paths, as such, between the recorded digests and the scanned ones outside the excluded paths; dirty iff there is one |
| DigestManifest.KeptIsExact | src/scm/none.ts:406-408 | leaving excluded paths out of an exact diff gives the exact diff of the rest |
| DigestManifest.RunKeepsInv | src/scm/none.ts:361-391 | over any run, from any tree, a file that passes for the recorded one has its digest, unless it was moved or restored there or rewritten at its recorded size and tick during the baseline |
| DigestManifest.FastPathIsExact | src/scm/none.ts:202-214 | over any run the fast scan equals the full re-hash iff no suspect file (moved, restored with a time of its own, or rewritten during the baseline at its recorded size and tick) passes for the recorded one with another digest; without such steps always, same-size rewrites in the capture tick included |
| DigestManifest.MoveDefeatsFastPath | src/scm/none.ts:254-264 | a concrete run in which a moved file is not re-hashed although its content differs |
| DigestManifest.RestoreDefeatsFastPath | src/scm/none.ts:254-264 | a concrete run in which content restored with the recorded size and mtime is missed |
| DigestManifest.RacyBaselineDefeatsFastPath | src/scm/none.ts:363-389 | a concrete run in which a same-size rewrite between hashing and capture, in the recorded tick, is missed |
| ClaimStore.TaskStore.ClaimTask | src/repositories/task.repository.ts:680-717 | succeeds iff the task is open and unassigned; then its row says in progress, the caller, one version up, claimed and updated now; nothing else changes, and on failure nothing |
| ClaimStore.TaskStore.RenewClaim | src/repositories/task.repository.ts:719-738 | succeeds iff the caller holds the in-progress claim; then it still does, one version up, claimed and updated now, and is not stale under any TTL; nothing else changes |
| ClaimStore.TaskStore.Update | src/repositories/task.repository.ts:318-352 | sets status and assignee if given; the completion time becomes the present on a move into done, none on a move out, and stays otherwise; version and claim time stay |
| ClaimStore.TaskStore.FindStaleClaims | src/services/claim-release.service.ts:37-49 | lists every task in progress whose claim and last update are at least the TTL old exactly once, with the holder and the claim time in its row |
| ClaimStore.TaskStore.ReleaseClaim | src/services/claim-release.service.ts:55-65 | releases whatever in-progress claim the task carries now: open, unassigned, no claim time, one version up, updated now; nothing else changes |
| ClaimStore.TaskStore.Sweep | src/services/claim-release.service.ts:71-118 | releases exactly the stale claims, each row told by its columns; announces for each the update and the release with its former holder and claim time, in order; leaves no claim stale |
| ClaimStore.AllReleased | src/services/claim-release.service.ts:71-118 | releasing the found claims one by one and nothing else is a whole sweep, after which nothing is stale |
| ClaimRuns.PerformAll | src/repositories/task.repository.ts:680-738 | every run of the store methods is a run of the step function, so that what is proved of all runs holds of the store |
| ClaimRuns.NoDoubleClaim | src/repositories/task.repository.ts:685-704 | over any run by any number of agents, two successful claims of one task have a release, or an update clearing the assignee, between them |
| ClaimRuns.UpdateFreesWithoutRelease | src/repositories/task.repository.ts:318-336 | a run in which an update alone lets a second agent claim the task |
| ClaimRuns.VersionsGrow | src/repositories/task.repository.ts:697-704 | versions never fall and strictly increase over every claim, renewal and release |
| ClaimRuns.ActiveHolderIsNeverSwept | src/services/claim-release.service.ts:32-49 | a sweep less than the TTL after a claim or renewal does not touch the task |
| ClaimRuns.SplitSweepReleasesRenewedClaim | src/services/claim-release.service.ts:71-75 | a run in which a claim renewed between finding and releasing is released all the same |
| ClaimRuns.SplitSweepIsSafeIff | src/services/claim-release.service.ts:71-75 | a found claim is still stale when released iff the task still has a claim time and no claim, renewal or update in between is less than the TTL old |
| ClaimRuns.SplitSweepReleasesAssignedTask | src/services/claim-release.service.ts:71-75 | a run in which a task without a claim time is released from its new holder, nothing having touched it within the TTL |
| ClaimRuns.CompletionOverRuns | src/repositories/task.repository.ts:333-351 | over any run of repository calls a completion time implies done, and a task is done without one iff it was created as done and never left that status; only a direct repository call reaches that (`ClaimRuns.CreatedAsDone`) |
| ClaimRuns.CompletionTimeIsLastMove | src/repositories/task.repository.ts:333-351 | over any run a task carries completion time c iff its last move into done was at c and it has been done since, or it came with c and has been done all along |
| ClaimRuns.ServiceKeepsCompletionTimes | src/services/task.service.ts:527-533 | over every run in which tasks are created as open, as the service does, a completion time is carried exactly by the tasks that are done |
| DeviceFlow.FirstFreeIsFirst | src/services/device-flow-store.ts:158-167 | the chosen user code is the first free candidate; none only when 33 in a row are taken |
| DeviceFlow.DeviceFlowStore.CreateSession | src/services/device-flow-store.ts:155-189 | files a session under both codes, pending, for the client, created now and expiring ten minutes later, or gives up after 33 taken candidates and changes nothing |
| DeviceFlow.DeviceFlowStore.Approve | src/services/device-flow-store.ts:209-219 | succeeds iff the session is pending or was approved by the same user; then it is approved by that user; nothing else about it and no other session changes |
| DeviceFlow.DeviceFlowStore.Deny | src/services/device-flow-store.ts:226-232 | denies a pending session only, and changes nothing else |
| DeviceFlow.DeviceFlowStore.RecordMintedToken | src/services/device-flow-store.ts:361-371 | stores the token and its id on an approved session only, and changes nothing else |
| DeviceFlow.DeviceFlowStore.Remove | src/services/device-flow-store.ts:239-244 | takes the session out of both maps and leaves every other entry |
| DeviceFlow.DeviceFlowStore.CleanupTick | src/services/device-flow-store.ts:256-264 | takes exactly the sessions past their lifetime out of both maps |
| DeviceFlow.InsertKeepsInverseIff | src/services/device-flow-store.ts:186-187 | a new session keeps the maps inverse iff its device code is not in use; otherwise the displaced session's user code stands for the new one |
| DeviceFlow.MapsStayInverse | src/services/device-flow-store.ts:155-275 | over every run with fresh device codes the user-code map is the exact inverse of the session map |
| DeviceFlow.SessionsStaySound | src/services/device-flow-store.ts:209-371 | over every run a session has an approving user iff approved, and a minted token only if approved |
| DeviceFlow.SessionOnlyEvolves | src/services/device-flow-store.ts:209-244 | over every run status moves only from pending to approved or denied, the approving user never changes, and a session once gone never comes back |
| DeviceFlow.ApproverIsWhoApproved | src/services/device-flow-store.ts:209-219 | over every run a session carries the approving user u iff an approve by u was what took it out of pending since it was created |
| DeviceFlow.TokenIsLastMinted | src/services/device-flow-store.ts:361-371 | over every run a session carries a minted token iff that token was the last one recorded on it while it was approved |
| DeviceFlow.RemovedStaysUnreachable | src/services/device-flow-store.ts:234-244 | a removed session is found by neither code until its device code is drawn again, whatever else happens |
| DeviceFlow.ResolvesToItsOwnSession | src/services/device-flow-store.ts:196-201 | a user code resolves iff a session carries it, and then to that one session |
| DeviceFlow.CleanupIsExact | src/services/device-flow-store.ts:256-264 | after a cleanup a user code resolves iff it did before and its session is within its lifetime |

## Left out

- The branches for a task missing from the table in the walks: edges are filtered to known tasks first, and that is proved to make them unreachable.
- The read transaction, the project lookup error and SQL text: the stored rows are parameters.
- `TextLines.TextRenderer.WalkChildren` and `Base32Encoder.EmitGroups` are inner loops of the source given a method of their
  own. A shift by a variable count is a repeated shift by one.
- GraphService.BuildDependencyGraph: the sort of roots, children, nodes and edges is a function on sequences instead of an in-place array sort; Sorting.SortIsUnique shows that no other result is possible.
- Async timing of sends: a send is one step that succeeds or fails. `SseManager` has failing sends in broadcasts,
  replays, gap messages and pings; what a connection received before a failing send closes it is not kept.
  `SseClient` assumes successful sends to open connections.
- SseHonesty.ExactlyOnceOrHonest: the form without a gap message assumes a nondecreasing clock, nondecreasing event timestamps, events that are fresh when broadcast, and an id of the same process; `SseClient.CompleteIffNothingMissed` assumes none of these.
- The raw `close` and `error` callbacks, shutdown and statistics of the SSE manager: they only remove connections or read counters.
- EventBuses.EventBus.RunProgram: the set of listeners is fixed while a program runs, and normal listeners do not use the bus; handlers that throw are swallowed as in the source.
- SHA-256, UTF-8 encoding and random generation: hashes are arbitrary functions, codes are parameters. Candidate user codes are an arbitrary stream.
- AuditTrail.AuditEventRepository.Append: the timestamp is part of the given content instead of being read from the clock in the same statement.
- The directory walk, symlink reads and ignore globs: a directory is a finite map from tracked path to content, size and mtime, listed in any order. Which paths `status` leaves out is a parameter.
- The canonical JSON text behind the manifest id: the id is a function of the sorted entries, and those are proved independent of the listing order. `changedFiles` is the same computation as `status`.
- DigestManifest.RunKeepsInv: the walk of a baseline or of a scan is one step; its capture is another.
- Stored timestamps are whole seconds as integers, not text; comparing the two text formats that occur in the database is not part of this model.
- Task columns other than status, assignee, version, claim, update and completion time, and deletion of tasks.
- Host names, polling interval and token names of the device flow, and the routes around it.
- The acyclicity check of `DependencyService`, the workflow engine, scoring, pagination clamps, settings and
  back-off.
