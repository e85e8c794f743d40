# BitBrat platform: verified models

BitBrat is an event platform. Events travel between services on a message bus, each carrying a
routing slip that says where it goes next. Around that sit small codecs, caches and protocols.
This project models the parts whose correctness is not obvious from reading one function and proves
what they promise over all inputs, runs and interleavings.

| file | what it models |
|---|---|
| `Routing.dfy`, `RoutingRuns.dfy` | reporting on and dispatching a routing slip; whole runs of hops and replans |
| `RoutedEvent.dfy` | the in-memory event and the operations that change it in place, proved against `Routing` |
| `DispatchProtocol.dfy` | overlapping `next` calls on one event and the dispatched mark |
| `JsonText.dfy`, `Registration.dfy` | `JSON.stringify`, the registration signature, the heartbeat guard |
| `CallTool.dfy` | de-duplication of tool calls, completions and the sweep |
| `PromptHash.dfy` | the FNV-1a key of a prompt |
| `StateEngine.dfy` | the versioned store, its log, compare-and-set and prefix queries |
| `Idempotency.dfy` | idempotency keys and the SET NX EX gate of `onMessage` over time |
| `DotEnv.dfy`, `EnvInterpolation.dfy`, `NamedContext.dfy` | the dotenv pair, the `${VAR:-default}` rewriter, the pack subheader pair |
| `Redaction.dfy`, `FeatureFlags.dfy`, `Retry.dfy` | log redaction, the flag cache, backoff |
| `Common.dfy`, `CodeUnits.dfy`, `KeyOrder.dfy`, `Strings.dfy` | shared vocabulary: options, UTF-16 code units, the orders in which stores compare keys, trimming |

Where the source changes state step by step there is a class or a method with loops, and its
postconditions equate the new state with a specification function of the old one. The theorems are
about those functions: `RoutedEvent.InternalEvent` refines `Routing`, `CallTool.ToolGateway` refines
`CallTool.Step`, and so on. `dafny verify dfyconfig.toml` checks everything.

## Findings

Where code and documentation disagree the model follows the code.

- The comment on `next` (src/common/base-server.ts:1004) speaks of the first step that is not OK or
  SKIP; the code takes the first PENDING step (line 1038), while `updateCurrentStep` does take the
  first unfinished one (line 1489). After an ERROR the two differ, so a service's report lands on a
  step it was not dispatched for (`Routing.ReportLandsOnDispatchedIff`). A slip of n steps reaches
  egress exactly when n - 1 services have reported OK or SKIP and then one more reports anything but
  PENDING, wherever the ERRORs fall (`RoutingRuns.EgressIff`); two steps or more whose services all
  report ERROR never get there (`RoutingRuns.AllErrorsReachEgressIff`, `RoutingRuns.StalledForever`).
- `next` adds the bus prefix only when the topic does not already begin with it, subscribers always
  add it (line 498); `Routing.ReachesSubscriberIff` says when the two meet.
- The merged idempotency configuration always has a `source` property, so spreading it over
  `source: serviceName` (line 696) replaces the service name even by undefined. A key carries the
  name exactly when the message itself hints it (`Idempotency.CarriesNameIff`), and one service's
  record makes another service skip the same message (`Idempotency.OtherServiceSkipsIff`).
- A key made with a source can equal one made without; `Idempotency.MixedKeyIff` says exactly when,
  `Idempotency.MixedSourcesCollide` gives a family.
- The `|` in the hashed prompt separates id and prompt only for ids free of `|`
  (`PromptHash.BaseIff`, `PromptHash.SeparatorFreeBaseIff`, `PromptHash.SeparatorIsAmbiguous`).
- The tool-call comment promises that keys are kept for 60 s; an execution removes its own key when
  it settles, and the sweep can remove the key of a later execution that is still running
  (`CallTool.AlwaysExactIff`). A key runs twice at once exactly when a sweep takes the key of a live
  execution and the key is called again before that execution settles (`CallTool.RunsTwiceIff`,
  `CallTool.SweptKeyRunsTwice`).
- The permission test comes after the lookup, so a refused caller joins a call in flight
  (`CallTool.JoinsIff`).
- The stored value never depends on a mutation's `op`. Reusing the id of an accepted log entry, as a
  redelivery does, makes log and versions disagree for good, and nothing else does
  (`StateEngine.RunConsistentIff`). Compare-and-set and the allowed keys hold regardless
  (`StateEngine.OneCommitPerVersion`, `StateEngine.RunExplained`). A redelivered unconditional write loses its first entry
  (`StateEngine.RedeliveryLosesEntry`); a redelivered compare-and-set leaves its value stored and its
  log entry rejected (`StateEngine.RedeliveryDisownsValue`).
- The upper bound of a prefix query, `prefix + '\uf8ff'`, depends on the store's order of keys. In
  Firestore's order, UTF-8 bytes, it leaves out keys that go on with a character outside the basic
  plane; in code-unit order it does not (`StateEngine.StoresAgreeIff`).
- `redactSecrets` masks strings directly under a sensitive key; an array or an object in between
  keeps strings that do not look like secrets (`Redaction.AllMaskedIff`,
  `Redaction.ArrayUnderSensitiveKeyKept`). The mask of a seven-character `sk-` or `sk_` string shows
  all of it, against the comment on line 18 (`Redaction.DisclosedIff`).
- A dotenv line for a key named `export` with a blank before its equals sign is lost
  (`DotEnv.WrittenLineReads`).
- After a malformed override of an unknown flag the first fallback asked with sticks, so the answer is
  the documented one exactly when that fallback gives the default asked with now
  (`FeatureFlags.EnabledIffMeaning`, `FeatureFlags.FirstFallbackSticks`).

## Model

| member | source | states |
|---|---|---|
| Routing.PrefixedOnce | src/common/base-server.ts:1086-1089 | prefixing a subject is idempotent, always yields a prefixed subject, gives a foreign topic the prefix exactly once, and leaves a prefixed or empty topic alone |
| Routing.ReachesSubscriberIff | src/common/base-server.ts:498-498 | a dispatched topic arrives at the subject its consumer subscribed iff there is no prefix or the topic does not begin with it |
| Routing.UpdateWrites | src/common/base-server.ts:1489-1514 | an update touches the current step alone, keeps its id, attempt, topic and start, and sets the end time exactly when a terminal status meets an unset one |
| Routing.UpdateError | src/common/base-server.ts:1504-1505 | an error given is stored, a null included; otherwise the old one stays |
| Routing.UpdateNotes | src/common/base-server.ts:1497-1503 | notes given replace the old ones and win over a note to append, which goes on a line of its own after them |
| Routing.NotesAccumulate | src/common/base-server.ts:1497-1503 | any number of appended notes end up as lines, oldest first |
| Routing.ChosenWrites | src/common/base-server.ts:1079-1084 | a dispatch stamps the first PENDING step's unset start, numbers its attempts from 0 and writes nothing else |
| Routing.NextMeaning | src/common/base-server.ts:1009-1148 | which outcome `next` has, the exact subject, that only a failed publish clears the mark, and what it leaves alone |
| Routing.OneDestination | src/common/base-server.ts:1036-1089 | every slip has exactly one destination: its first PENDING step's topic, or egress when there is none |
| Routing.CompleteMeaning | src/common/base-server.ts:1174-1197 | the same for `complete`: egress only, a mark of its own, nothing chosen |
| Routing.MeasureIsSum | src/common/base-server.ts:1038-1038 | the progress measure is the unfinished steps plus the PENDING ones |
| Routing.HopKeepsShape | src/common/base-server.ts:1484-1514 | any report keeps a slip in the shape (OK or SKIP)*, at most one ERROR, PENDING* |
| Routing.HopProgressIff | src/common/base-server.ts:1475-1514 | a reporting hop never raises the measure and lowers it iff a step is unfinished and the hop is not ERROR on a step already ERROR |
| Routing.ReportLandsOnDispatchedIff | src/common/base-server.ts:1489-1495 | the step a report lands on is the step `next` dispatches iff the first unfinished step is not ERROR |
| RoutedEvent.RoutingStep.Apply | src/common/base-server.ts:1495-1514 | the in-place update of notes, error, status and end time equals the specified new step |
| RoutedEvent.InternalEvent.UpdateCurrentStep | src/common/base-server.ts:1475-1522 | the event in place becomes the one with its first unfinished step updated and nothing else changed, and the index is returned |
| RoutedEvent.InternalEvent.NextHop | src/common/base-server.ts:1009-1148 | the whole event and the outcome after `next` equal the specified ones: report, mark, choice, subject, failed publish |
| RoutedEvent.InternalEvent.CompleteEvent | src/common/base-server.ts:1174-1197 | the whole event and the outcome after `complete` equal the specified ones |
| RoutedEvent.InternalEvent.ApplyPendingRoute | src/apps/query-analyzer.ts:52-77 | the event after a replan equals the specified one, default stage included, and the result says whether a route was pending |
| RoutingRuns.RunKeepsShape | src/common/base-server.ts:1036-1094 | the shape holds after every run of calls, failed publishes, completions, redeliveries and replans whose routes have it |
| RoutingRuns.PlansKeepShape | src/common/base-server.ts:1484-1514 | when every plan starts out PENDING, every slip a run reaches is (OK or SKIP)*, at most one ERROR, PENDING* |
| RoutingRuns.HopRunIsRun | src/common/base-server.ts:1009-1148 | a run of hops is the run of deliveries and successful `next` calls it stands for |
| RoutingRuns.EgressIff | src/common/base-server.ts:1036-1094 | a run of any reports over n > 0 PENDING steps sends to egress iff n - 1 services have reported OK or SKIP and then one reports anything but PENDING |
| RoutingRuns.InProgressEgressIff | src/common/base-server.ts:1036-1094 | the same from any slip with k finished steps, perhaps an ERROR, and PENDING ones left |
| RoutingRuns.EmptySlipEgressIff | src/common/base-server.ts:1036-1060 | an empty slip goes to egress at the first hop |
| RoutingRuns.HopsArePaidFor | src/common/base-server.ts:1036-1094 | every hop short of egress is paid for by the measure or is one that stalls, with two units left over |
| RoutingRuns.EgressUnlessStalling | src/common/base-server.ts:1036-1094 | from n PENDING steps any run of terminal reports has sent to egress after 2n - 1 hops plus one for each stalling hop |
| RoutingRuns.EgressWithin2n | src/common/base-server.ts:1036-1094 | from n PENDING steps every run that never repeats ERROR on an ERROR step has sent to egress after 2n - 1 hops (one hop when n is 0) |
| RoutingRuns.BoundIsTight | src/common/base-server.ts:1036-1094 | for every n above 0 some such run of 2n - 2 hops has not sent to egress |
| RoutingRuns.StalledForever | src/common/base-server.ts:1036-1094 | on a stalled slip with a PENDING step any number of ERROR reports sends to that same step each time |
| RoutingRuns.AllErrorsReachEgressIff | src/common/base-server.ts:1036-1094 | from n PENDING steps a run of ERROR reports sends to egress iff n < 2, else every hop dispatches the second step |
| RoutingRuns.HappyPath | src/common/base-server.ts:1009-1094 | when everybody reports OK or SKIP the sends are exactly the slip's topics in order and then one to egress |
| RoutingRuns.NoStepLost | src/apps/query-analyzer.ts:63-73 | over any run of hops, completions and replans history only grows at its end, and history with slip is exactly the old steps followed by those of every plan installed, in order |
| RoutingRuns.ReplanAppendsWholeSlip | src/apps/query-analyzer.ts:52-77 | a replan appends the whole old slip, current step updated, and a second one without a new route changes nothing |
| RoutingRuns.AttemptsCountChoices | src/common/base-server.ts:1079-1084 | each step's attempt + 1 grows by exactly the number of times `next` chose it, failed publishes included |
| RoutingRuns.RunStamps | src/common/base-server.ts:1081-1082 | over any run reported steps have end times, dispatched steps have start times, and no stamp is overwritten |
| RoutingRuns.RunKeepsDetails | src/common/base-server.ts:1475-1522 | no run of `next`, `complete` and replans touches a step's error or notes |
| RoutingRuns.StageAfterRun | src/apps/query-analyzer.ts:70-74 | after any run the stage is the last one a replan gave, else the event's, else `contextualization` once a replan was made |
| RoutingRuns.OneSendPerMark | src/common/base-server.ts:1174-1184 | between deliveries `next` sends at most once and `complete` sends at most once, replans included |
| RoutingRuns.SendsExactly | src/common/base-server.ts:1014-1019 | between deliveries and with topics set, `next` sends exactly once iff its mark was clear and some call's publish succeeds, and so does `complete`, whatever the other did |
| RoutingRuns.DeliveredSendsAgain | src/common/base-server.ts:1014-1019 | after a delivery `next` and `complete` send again whatever was sent before |
| RoutingRuns.CompleteAfterNextSends | src/common/base-server.ts:1179-1184 | the two marks are independent: `complete` sends to egress even after `next` has sent |
| DispatchProtocol.AtMostOnce | src/common/base-server.ts:1014-1019 | in every interleaving at most one call holds the mark and at most one publish succeeds |
| DispatchProtocol.FailureLeavesDispatchable | src/common/base-server.ts:1143-1147 | after a failed publish, in any reachable state, the next call takes the mark |
| DispatchProtocol.SuccessIsFinal | src/common/base-server.ts:1014-1019 | after a success no later call publishes or bumps an attempt |
| DispatchProtocol.StatusesFollowReports | src/common/base-server.ts:1010-1018 | however calls overlap, the statuses are those of the reports applied in the order the calls began, turned-away calls included |
| DispatchProtocol.UninterruptedCallIsNext | src/common/base-server.ts:1009-1148 | a call whose steps are not interleaved behaves as the sequential `next`, subject included |
| JsonText.UnescapeEscape | src/apps/tool-gateway.ts:668-668 | escaped string bodies are read back exactly, surrogate pairs and lone surrogates included |
| JsonText.PrintInjective | src/apps/tool-gateway.ts:668-668 | equal JSON texts come from equal values, member order included |
| JsonText.PrintedForm | src/apps/tool-gateway.ts:668-668 | literals, arrays and objects are printed as the JSON grammar says, joined by commas and colons without white space |
| JsonText.NumberForm | src/apps/tool-gateway.ts:668-668 | an integer is printed as a sign and its digits |
| JsonText.DigitsMean | src/apps/tool-gateway.ts:668-668 | printed digits are the canonical decimal of the number: right value, no leading zero |
| JsonText.EscapeForm | src/apps/tool-gateway.ts:668-668 | the short escapes, then \u with four lower-case hexadecimal digits of the right value, and everything else verbatim |
| JsonText.QuotedPlain | src/apps/tool-gateway.ts:668-668 | a string without characters to escape is printed as itself between quotes |
| Registration.StableOfEquivalent | src/apps/tool-gateway.ts:656-667 | values equal up to member order have the same sorted form, with JavaScript's index-key enumeration |
| Registration.EquivalentOfStable | src/apps/tool-gateway.ts:656-667 | only values equal up to member order share a sorted form |
| Registration.SignatureIff | src/apps/tool-gateway.ts:654-669 | two payloads have equal signatures iff, without the three volatile top-level members, they are the same value up to member order at every depth |
| Registration.SignatureByMembers | src/apps/tool-gateway.ts:654-669 | two signatures are equal iff the payloads have the same members up to order at every depth, `correlationId`, `updatedAt` and `discoverySource` at the top aside and no others |
| Registration.AddedMemberIff | src/apps/tool-gateway.ts:655-655 | one more member keeps the signature iff it is one of those three |
| Registration.StableObjectSorted | src/apps/tool-gateway.ts:659-664 | the members of a signature's objects come sorted: array indices by number, then code-unit order |
| Registration.IndexIff | src/apps/tool-gateway.ts:662-662 | the keys the engine enumerates first are the decimals of 0 to 2^32 - 2 |
| Registration.RegistrationGuard.Register | src/apps/tool-gateway.ts:500-515 | the signature table and the write decision after a registration |
| Registration.WrittenIffChanged | src/apps/tool-gateway.ts:500-546 | after any run of registrations and failed writes a payload is written iff none is remembered for its name or the remembered one differs in a member other than those three |
| Registration.HeartbeatNotWritten | src/apps/tool-gateway.ts:500-515 | a heartbeat that differs from the remembered payload only in those three members is never written |
| CallTool.AlwaysExactIff | src/apps/tool-gateway.ts:1093-1153 | over any interleaving the in-flight table holds exactly the running executions at every moment iff no sweep removes a key with a live execution |
| CallTool.OneExecutionPerKey | src/apps/tool-gateway.ts:1093-1104 | while the table is exact no key has two running executions |
| CallTool.StepUniqueIff | src/apps/tool-gateway.ts:1093-1153 | one event lets a key run twice iff it is a permitted arrival that misses the table while an execution of its key runs |
| CallTool.AlwaysUniqueIff | src/apps/tool-gateway.ts:1093-1153 | over any interleaving no key runs twice at once iff no permitted arrival misses the table while its key is busy |
| CallTool.OrphanIff | src/apps/tool-gateway.ts:443-455 | while no key runs twice, the table loses running executions to sweeps of their key only, and they stay lost until they settle |
| CallTool.RunsTwiceIff | src/apps/tool-gateway.ts:443-455 | from the start, some key runs twice at once iff a sweep removes the key of a live execution and the key is called again before that execution settles |
| CallTool.CompletedIff | src/apps/tool-gateway.ts:443-455 | from the start, a key is remembered iff no sweep came more than 60000 ms after its last completion, and with the time of that one |
| CallTool.SettledKeyExpiresIff | src/apps/tool-gateway.ts:447-449 | a completion protects its key from a sweep iff that comes at most 60000 ms later |
| CallTool.GatewayRuns | src/apps/tool-gateway.ts:1093-1153 | from the start: exact throughout iff no sweep removes a live key, then no key runs twice, and in general no key does iff no arrival misses a busy one |
| CallTool.StartsIffIdle | src/apps/tool-gateway.ts:1093-1153 | while the table is exact a permitted arrival starts an execution iff none of its key is running |
| CallTool.JoinedOutcome | src/apps/tool-gateway.ts:1097-1104 | in every run each caller keeps the execution it joined, of its own key, and its outcome never changes once settled |
| CallTool.OutcomeIff | src/apps/tool-gateway.ts:1108-1147 | an execution ends with an outcome iff it settled with that outcome, so its callers get that one |
| CallTool.EveryCallerJoinedRunning | src/apps/tool-gateway.ts:1093-1104 | every caller awaiting a promise at the end of any run joined an execution of its own key that was running then |
| CallTool.JoinsIff | src/apps/tool-gateway.ts:1093-1114 | a caller gets a promise iff it is permitted or its key is in flight, and a refused one starts nothing |
| CallTool.SweptKeyRunsTwice | src/apps/tool-gateway.ts:443-455 | a run that violates the condition of `AlwaysUniqueIff`: a sweep leads to two running executions of one key |
| CallTool.ToolGateway.OnCall | src/apps/tool-gateway.ts:1093-1147 | an arrival takes exactly the specified step: join, refusal or a new execution, in that order |
| CallTool.ToolGateway.OnSettled | src/apps/tool-gateway.ts:1144-1150 | settling takes exactly the specified step: outcome fixed, key out of the table, completion noted |
| CallTool.ToolGateway.OnSweep | src/apps/tool-gateway.ts:443-455 | the two loops of the sweep remove exactly the expired keys from both tables |
| PromptHash.ComputeIdempotency | src/apps/llm-bot-service.ts:41-49 | the accumulator loop computes FNV-1a of the base string, printed in hexadecimal |
| PromptHash.KeyTextIff | src/apps/llm-bot-service.ts:48-48 | the printed keys, an h and lower-case hexadecimal digits, are equal iff the hashes are |
| PromptHash.KeyMeans | src/apps/llm-bot-service.ts:41-48 | a key is the hexadecimal form of the hash, from 2166136261, of id, bar and prompt |
| PromptHash.FnvSnoc | src/apps/llm-bot-service.ts:44-47 | each code unit is mixed in by exclusive or before the state is multiplied by 16777619 modulo 2^32 |
| PromptHash.XorBits | src/apps/llm-bot-service.ts:45-45 | exclusive or works binary digit by binary digit |
| PromptHash.HexMeans | src/apps/llm-bot-service.ts:48-48 | the digits are below 16, have no leading zero and stand for the hash by place value |
| PromptHash.HashOfA | src/apps/llm-bot-service.ts:41-48 | the published FNV-1a value for the text a |
| PromptHash.RoundInjective | src/apps/llm-bot-service.ts:45-46 | a round is injective in the 32-bit state and in the code unit |
| PromptHash.HexInjective | src/apps/llm-bot-service.ts:48-48 | hexadecimal printing is injective |
| PromptHash.NoSingleChangeCollision | src/apps/llm-bot-service.ts:41-49 | base strings of equal length that agree everywhere but at one position have equal keys iff they agree there too |
| PromptHash.ReplacedCharacterChangesKey | src/apps/llm-bot-service.ts:41-49 | with a fixed correlation id replacing one character of a prompt changes the key |
| PromptHash.BaseIff | src/apps/llm-bot-service.ts:42-42 | base strings are equal iff the parts are, or one id goes on with a separator and the start of the other's prompt |
| PromptHash.SeparatorFreeBaseIff | src/apps/llm-bot-service.ts:42-42 | for ids free of the separator the base string determines id and prompt |
| PromptHash.SeparatorIsAmbiguous | src/apps/llm-bot-service.ts:42-42 | a separator moved between id and prompt gives the same key |
| StateEngine.StateStore.CommitMutation | src/apps/state-engine-repository.ts:191-239 | the whole store and result after a commit: version check, snapshot, log entry |
| StateEngine.StateStore.HandleMutation | src/apps/state-engine.ts:222-248 | the whole store after handling a mutation, rejected ones logged and nothing else changed |
| StateEngine.StarAllowsIff | src/apps/state-engine.ts:165-166 | a pattern that ends in a star allows exactly the keys that begin with what stands before it |
| StateEngine.PlainAllowsIff | src/apps/state-engine.ts:168-168 | any other pattern allows itself alone |
| StateEngine.AllowedByAny | src/apps/state-engine.ts:163-170 | a list allows what any of its patterns allows |
| StateEngine.AcceptedIff | src/apps/state-engine.ts:222-248 | exactly which mutations are accepted, what entry and snapshot say then, why others are rejected, and that nothing else changes |
| StateEngine.WrittenUnderStar | src/apps/state-engine.ts:222-248 | an unconditional mutation for a key under an allowed star is stored with its value, actor, time and ttl |
| StateEngine.HandleConsistentIff | src/apps/state-engine.ts:222-248 | one mutation keeps versions, values and log in agreement iff its id is not that of an accepted entry |
| StateEngine.RunConsistentIff | src/apps/state-engine.ts:222-248 | after any run each key's version is the number of its accepted entries and their resulting versions are exactly 1..version iff no mutation on the way reused the id of an accepted entry |
| StateEngine.RunExplained | src/apps/state-engine.ts:163-170 | after every run, ids reused or not, only allowed keys are stored and the accepted entry of the latest version, if any, explains the whole snapshot: value, actor, time, version, ttl, metadata |
| StateEngine.RunFromEmptyIff | src/apps/state-engine.ts:222-248 | after any run from an empty store versions, values and log agree iff no accepted entry was overwritten |
| StateEngine.RunConsistent | src/apps/state-engine.ts:222-248 | over any run with distinct ids each version counts its accepted entries, resulting versions are exactly 1..version, the value is that of the highest, only allowed keys are stored |
| StateEngine.OneWinnerPerVersion | src/apps/state-engine-repository.ts:203-205 | in the log of any run at most one accepted entry answers to a key and expected version |
| StateEngine.OneCommitPerVersion | src/apps/state-engine-repository.ts:203-205 | in any run at most one of the proposals for a key and expected version is committed, redelivered ids included |
| StateEngine.CommitsAccountedFor | src/apps/state-engine-repository.ts:223-232 | over any run accepted entries grow by the commits less the accepted entries overwritten |
| StateEngine.RunLogsAll | src/apps/state-engine-repository.ts:241-256 | the log ends up with one entry per mutation, under its id, and keeps earlier entries |
| StateEngine.LogGrowsByAllIff | src/apps/state-engine-repository.ts:241-256 | the log gains one entry per mutation iff all ids are new |
| StateEngine.RedeliveryLosesEntry | src/apps/state-engine-repository.ts:223-232 | a run that violates the condition of `RunConsistentIff`: one id committed twice leaves version 2 with one log entry |
| StateEngine.RedeliveryDisownsValue | src/apps/state-engine.ts:236-247 | another: a compare-and-set delivered twice leaves its value at version 1 and its log entry rejected |
| StateEngine.PrefixRangeIff | src/apps/state-engine-repository.ts:70-74 | in either order a key is in the prefix range iff it extends the prefix and its next character, if any, comes before U+F8FF |
| StateEngine.StateStore.GetStateByPrefix | src/apps/state-engine-repository.ts:70-82 | the Firestore query, in UTF-8 byte order, returns exactly the selected keys with their snapshots |
| StateEngine.StateStore.GetStateByPrefixFiltered | src/apps/state-engine-repository.ts:169-189 | the filtered document-store query returns the selected keys for whichever order the store has |
| StateEngine.SelectedIsFilteredRange | src/apps/state-engine-repository.ts:182-184 | the `startsWith` filter removes nothing from the range |
| StateEngine.QueryCompleteIff | src/apps/state-engine-repository.ts:70-82 | a prefix query returns every stored key that begins with the prefix iff none goes on at or after U+F8FF in the store's order |
| StateEngine.StoresAgreeIff | src/apps/state-engine-repository.ts:70-74 | code-unit and UTF-8 order select the same keys iff no key goes on after the prefix with a surrogate |
| KeyOrder.UnitsIsLess | src/apps/state-engine-repository.ts:175-178 | code-unit order is the `<` of JavaScript strings |
| KeyOrder.Utf8BytesIsByteOrder | src/apps/state-engine-repository.ts:72-73 | comparing UTF-16 texts with surrogates last is comparing their UTF-8 encodings byte by byte |
| Idempotency.RedisClient.CheckIdempotency | src/common/idempotency-middleware.ts:115-206 | contents and result of the check, failing open when Redis is absent, not ready or errors |
| Idempotency.KeySegments | src/common/idempotency-middleware.ts:79-92 | a key is bitbrat, idempotency, the dotted parts of the stripped topic, the id and the source if any, joined by colons |
| Idempotency.StripEnvMeaning | src/common/idempotency-middleware.ts:83-83 | one leading environment name comes off a topic, and only one |
| Idempotency.TtlPrecedence | src/common/idempotency-middleware.ts:276-286 | a positive hint, else the subscription's ttl, else the service's, else 300 s |
| Idempotency.UncheckedIsHandled | src/common/base-server.ts:678-683 | a delivery is handled and leaves no record when no switch is on, it has no id, or Redis cannot answer |
| Idempotency.CheckedIsRecorded | src/common/base-server.ts:678-717 | otherwise it is skipped iff its key is alive, and else recorded for its ttl in seconds; either switch will do |
| Idempotency.RedeliverySkippedIff | src/common/base-server.ts:678-717 | the same message redelivered is skipped iff it comes less than its hinted ttl in seconds later |
| Idempotency.CustomKeyDecides | src/common/idempotency-middleware.ts:123-123 | a subscription's key function decides alone |
| Idempotency.CheckTells | src/common/idempotency-middleware.ts:115-206 | the result's key, and exactly when the check succeeded and found a duplicate |
| Idempotency.SkippedIff | src/common/base-server.ts:678-717 | in a time-ordered run of deliveries at any services a delivery is skipped iff it is checked and its key was recorded less than that record's ttl earlier |
| Idempotency.KeyIff | src/common/idempotency-middleware.ts:79-92 | for colon-free parts, sources present in both or in neither, keys are equal iff stripped topic, correlation id and source are |
| Idempotency.MixedKeyIff | src/common/idempotency-middleware.ts:86-89 | for colon-free source and id, a key with a source equals one without iff the source is the other's id and the rest reads as its topic |
| Idempotency.MixedSourcesCollide | src/common/idempotency-middleware.ts:86-89 | with a source in only one of them two different messages share a key |
| Idempotency.SameKeyIff | src/common/idempotency-middleware.ts:79-92 | two deliveries have equal derived keys iff they carry the same message or clash |
| Idempotency.SkippedIffSeen | src/common/base-server.ts:678-717 | with derived keys the skip condition is an earlier record, by any service, of the same stripped topic, id and hinted source or of a clashing message, within its ttl |
| Idempotency.SkippedIffSameMessage | src/common/base-server.ts:678-717 | when all messages hint a source or none does, the skip condition is an earlier record of the same stripped topic, id and source |
| Idempotency.HandledApart | src/common/base-server.ts:678-717 | two recorded deliveries of one key, at whatever services, are at least the first one's ttl apart |
| Idempotency.CarriesNameIff | src/common/base-server.ts:693-698 | a derived key carries the service name iff the message hints that name as its source |
| Idempotency.IntendedKeyIff | src/common/base-server.ts:693-698 | the key is the one with the service name as default source iff the message hints a source |
| Idempotency.OtherServiceSkipsIff | src/common/base-server.ts:693-717 | after one service recorded a message another skips it iff the hinted sources agree and the record is alive |
| Idempotency.ServiceNameIsIgnored | src/common/base-server.ts:693-698 | no key, custom or derived, depends on the service name |
| DotEnv.FlattenToDotEnv | infrastructure/scripts/merge-env.js:59-67 | the pushing loop, sort and join produce the specified file |
| DotEnv.LoadSecureLocal | infrastructure/scripts/merge-env.js:34-53 | the line loop collects the specified map |
| DotEnv.ParsePrintedLine | infrastructure/scripts/merge-env.js:39-50 | one printed entry is read back, `=` in the value included |
| DotEnv.RoundTrip | infrastructure/scripts/merge-env.js:34-67 | for a clean map, the printed lines in any order, joined and loaded, give the map back |
| DotEnv.FlattenThenLoad | infrastructure/scripts/merge-env.js:34-67 | flattening an object with clean entries and loading the file gives its non-null entries back |
| DotEnv.WrittenLineReads | infrastructure/scripts/merge-env.js:39-50 | a line with `export`, white space and either kind of quotes reads as its key and value iff the key is not taken for the keyword |
| DotEnv.QuotesComeOff | infrastructure/scripts/merge-env.js:18-25 | one pair of quotes of either kind comes off, with the white space outside it |
| DotEnv.UnquotedIsTrimmed | infrastructure/scripts/merge-env.js:24-24 | a value without a pair of quotes is only trimmed |
| DotEnv.TildeMeans | infrastructure/scripts/merge-env.js:27-32 | a tilde alone or before a slash means the home directory, anywhere else nothing |
| DotEnv.IgnoredLine | infrastructure/scripts/merge-env.js:39-45 | blank lines, comments and lines without an equals sign are ignored |
| DotEnv.CarriageReturnsDrop | infrastructure/scripts/merge-env.js:37-37 | carriage returns before newlines drop |
| DotEnv.LastEntryCounts | infrastructure/scripts/merge-env.js:50-50 | of several entries for a key the last one counts |
| DotEnv.SortedInOrder | infrastructure/scripts/merge-env.js:65-65 | the printed lines are in order |
| DotEnv.LineLessIff | infrastructure/scripts/merge-env.js:65-65 | that order is lexicographic: a beginning first, else the first difference |
| DotEnv.FileIsJoined | infrastructure/scripts/merge-env.js:66-66 | the file is the lines joined by newlines and one newline more |
| Strings.SpaceIff | infrastructure/scripts/merge-env.js:20-20 | what trimming removes is the white space ECMA-262 lists |
| EnvInterpolation.InterpolateInto | src/common/env-interpolation.ts:42-60 | the replacing pass yields the specified text and adds exactly the specified names, in order, to the two sets |
| EnvInterpolation.InterpolateEnvArray | src/common/env-interpolation.ts:78-88 | elements are interpolated one by one into shared sets |
| EnvInterpolation.ReferenceReads | src/common/env-interpolation.ts:49-59 | a set variable beats its default, an empty one counts as unset, and without a default it vanishes |
| EnvInterpolation.InterpolateSegments | src/common/env-interpolation.ts:17-17 | a text rendered from segments becomes the concatenation of their values, nothing rescanned, and its matches are its references in order |
| EnvInterpolation.SegmentNames | src/common/env-interpolation.ts:49-59 | `refsUsed` holds exactly the referenced names, `unresolved` exactly those referenced without a default while unset or empty |
| EnvInterpolation.NamesInOrder | src/common/env-interpolation.ts:49-56 | names are listed once each, in the order in which they are first met |
| EnvInterpolation.NameCharIff | src/common/env-interpolation.ts:17-17 | names are ASCII letters of either case, digits and underscores |
| Strings.LineTerminatorIff | src/common/env-interpolation.ts:17-17 | what a dot does not match are the four line terminators |
| EnvInterpolation.UnfinishedReferenceStays | src/common/env-interpolation.ts:17-17 | a default does not go past a line end and a name is not empty |
| EnvInterpolation.PlainTextStays | src/common/env-interpolation.ts:33-60 | without a dollar sign before a brace nothing is replaced |
| EnvInterpolation.HasEnvRefIff | src/common/env-interpolation.ts:33-37 | `hasEnvRef` is false iff nothing matches, and then the text is unchanged |
| NamedContext.ParseOfFormattedIff | src/common/context/named-context.ts:26-40 | a formatted subheader is read back iff id and version are white-space free words and the source a non-empty single line |
| NamedContext.FormatOfParsed | src/common/context/named-context.ts:35-40 | whatever parses prints back to the same subheader |
| NamedContext.ParseIff | src/common/context/named-context.ts:35-40 | parsing is matching: a word, ` v`, a word, ` (source: `, a non-empty single line, `)` |
| NamedContext.RenderingLosesNothing | src/common/context/named-context.ts:45-62 | a well-tagged pack can be read back from its context, an unset priority as 3 |
| NamedContext.ExtractContextPacks | src/common/context/named-context.ts:64-76 | the pushing loop returns the references in the contexts, in order |
| NamedContext.ExtractionIff | src/common/context/named-context.ts:55-76 | extracting from rendered packs returns exactly their references in order iff every pack's tag is well formed |
| NamedContext.ForeignContextsIgnored | src/common/context/named-context.ts:69-74 | contexts that are not packs do not affect the extraction |
| Redaction.RedactIdempotent | src/common/logging.ts:36-58 | redacting twice is redacting once, for any notion of secret-looking string |
| Redaction.RedactKeepsTree | src/common/logging.ts:43-56 | array lengths and object keys are preserved at every depth |
| Redaction.RedactHides | src/common/logging.ts:46-51 | every value directly under a sensitive key comes out as a container, as the mask, or as at most ten characters with the mask in the middle |
| Redaction.MaskShows | src/common/logging.ts:13-21 | strings of up to six characters vanish, of longer ones the first two or three and the last four characters stay |
| Redaction.SensitiveIff | src/common/logging.ts:11-11 | a key is sensitive iff one of the seven words stands in it, in any letter case |
| Redaction.RedactItemsAt | src/common/logging.ts:43-43 | in any array at any index a string is masked iff it looks like a secret, and otherwise kept |
| Redaction.AllMaskedIff | src/common/logging.ts:36-58 | all strings anywhere below sensitive keys come out masked iff each is directly under one, looks like a secret or is its own mask |
| Redaction.UnchangedIff | src/common/logging.ts:36-58 | redaction leaves exactly the values without suspicious strings or scalars under sensitive keys unchanged |
| Redaction.ScalarUnderSensitiveKey | src/common/logging.ts:48-48 | a number, boolean or null directly under a sensitive key becomes the bare mask |
| Redaction.MaskForgetsMiddle | src/common/logging.ts:13-21 | two strings are masked alike iff both are short or both are long and agree in what the mask shows of either end |
| Redaction.DisclosedIff | src/common/logging.ts:13-21 | the mask hides nothing of a string iff it has seven characters and begins with sk- or sk_, or is empty |
| Redaction.DeterminedIff | src/common/logging.ts:13-21 | a string is determined by its mask and length iff the mask hides nothing of it |
| Redaction.ArrayUnderSensitiveKeyKept | src/common/logging.ts:43-43 | a value that violates the condition of `AllMaskedIff` and is kept whole: a harmless-looking string in an array under a sensitive key |
| FeatureFlags.FeatureGate.Enabled | src/common/feature-flags.ts:62-80 | answer and cache after asking for a flag |
| FeatureFlags.FeatureGate.Raw | src/common/feature-flags.ts:85-94 | the override, else the first set environment name |
| FeatureFlags.FeatureGate.SetEnvProvider | src/common/feature-flags.ts:115-119 | a new environment empties overrides and cache, so answers start from the new environment |
| FeatureFlags.ParseBoolMeans | src/common/feature-flags.ts:14-20 | the four words for on and for off, in any letter case, decide; anything else leaves the fallback |
| FeatureFlags.SpacedWord | src/common/feature-flags.ts:16-16 | white space around such a word does not matter |
| FeatureFlags.FirstSetIff | src/common/feature-flags.ts:88-92 | a flag's environment names are tried in order and the first one set wins |
| FeatureFlags.OverrideDecides | src/common/feature-flags.ts:62-94 | an override that names a truth value decides over environment and defaults until it is changed |
| FeatureFlags.FlagWithoutOverride | src/common/feature-flags.ts:62-94 | without one a flag of the manifest follows its environment, then its default |
| FeatureFlags.UnknownFlag | src/common/feature-flags.ts:72-73 | an unknown key has the fallback asked with, and false without one |
| FeatureFlags.EnabledIffMeaning | src/common/feature-flags.ts:62-80 | after any history the answer is the uncached meaning iff the key is determined, was not asked since its override was set, or was first asked with the default asked with now |
| FeatureFlags.FirstFallbackSticks | src/common/feature-flags.ts:67-78 | a malformed override of an unknown key answers with the first fallback asked with |
| Retry.WithBackoff | src/common/retry.ts:28-52 | it calls between 1 and n times, stops at the first success, refusal or last attempt, sleeps exactly one time fewer than it calls, and in total within the bounds |
| Retry.BackoffBound | src/common/retry.ts:35-49 | total sleep with at most r calls after the first is at most r*cap and base*(2^r-1), or 1.5 times the latter with jitter |
| Retry.DelaysDouble | src/common/retry.ts:43-43 | delays start at the base and double until the cap stops them |
| Retry.OptionsMean | src/common/retry.ts:29-31 | five attempts, 250 ms and 5 s by default, each clamped from below |
| Retry.PauseMeans | src/common/retry.ts:43-47 | a pause is the delay without jitter, and between half and one and a half times it with |
| Retry.ComputeBackoffSchedule | src/common/retry.ts:96-118 | the schedule has one entry per attempt, each the specified one and within [1, cap] |
| Retry.EntryStrays | src/common/retry.ts:108-115 | a schedule entry strays from its delay by at most the ratio's share of it, and by nothing without one |
| Retry.RatioClamped | src/common/retry.ts:106-106 | a ratio out of range counts as the nearer end of [0, 1] |
| Retry.IdealMonotone | src/common/retry.ts:108-110 | the jitter-free schedule min(cap, base*2^i) never decreases |

## Left out

- Express routes, SSE and MCP transport, WebSockets, webhooks and connector SDKs are input and output plumbing.
- Bus drivers, Redis, Firestore and Postgres clients appear as operations that succeed or fail; Redis is a map from key to expiry time.
- `markSelectedCandidate`, feedback, debug messages, log lines, tracing, metrics and persistence snapshots do not change the slip and are not part of this model.
- Clocks are parameters: one reading per call, and in `StateEngine.Run` and the hop runs one reading for the run; no theorem depends on the readings.
- Exceptions while creating a publisher and synchronous throws of a tool function are assumed away, as the types intend.
- Interleaved document-store commits: the store's own comment says a commit is not a transaction, so mutations are handled one after another.
- Rule evaluation after a commit and the egress it publishes are not part of this model.
- JSON numbers are integers, and `undefined` values and `__proto__` keys are excluded; payloads are objects, which the handler's `name` and `url` checks enforce.
- The background write of a registration is an event that may fail later; its 5 s timeout is not modelled.
- Dotenv files, interpolation, subheaders and idempotency keys use Unicode scalar values instead of UTF-16 code units; only the order in which the dotenv printer sorts lines could tell the difference, and the round trip holds for every order.
- `path.join` and the home directory are parameters of the dotenv parser; `mergeEnv` is a chain of map updates and adds nothing.
- GetStateByPrefixFiltered: the order in which the document store compares ids is a parameter, because its database collation is not part of this model.
- GetStateByPrefix: Firestore's order of document ids is taken to be that of their UTF-8 bytes.
- A custom idempotency key function sees topic, correlation id, source and ttl of its configuration.
- FeatureFlags.FeatureGate.Raw: keys that live on Object.prototype, such as `constructor`, are not modelled; looking one up that is neither overridden nor in the manifest throws.
- EnvInterpolation.InterpolateInto: variable names that live on Object.prototype are not modelled; an environment object that inherits them substitutes the text of the inherited value.
- DotEnv.LoadSecureLocal: a key `__proto__` is not modelled; assigning it does not add an entry.
- The record wrapper of the interpolator repeats the array wrapper on the values of a map.
- The regular expressions that recognise secret shapes are an arbitrary predicate on strings.
- The environment object behind the flags is fixed while a gate uses it; a change to it under a live cache is not modelled.
- Jitter is a real factor in [0.5, 1.5) and delays are integer milliseconds.
- `markCurrentStepError` is a legacy helper outside the routing run.
