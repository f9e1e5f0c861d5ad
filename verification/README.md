# Models and proofs for Freshell's protocol, parser and migration code

This Dafny project models the parts of Freshell whose correctness is not visible from one function
body, and proves what they promise over every input, every run or every reachable state.

| files | what they model |
|---|---|
| `JsonSchema`, `SchemaSynthesis`, `SchemaForm`, `SchemaMeaning`, `SchemaEmission` | the compiler from resolved TypeScript types to JSON Schema: a type graph with cycles, the compiler as functions and as the loops that fill local arrays and records, what its schemas look like and in which order, the meaning of types and of schemas, what a type puts on the wire when values are undefined |
| `CanonicalJson` | the canonical, key-sorted form of JSON documents |
| `StartupProbes`, `StartupProbeRuns`, `StartupProbeReplay`, `StartupProbeHandshake`, `StartupProbeColors` | the chunked parser that answers a terminal program's startup queries, its runs, the replay boundary, what it does with every stream, written out as texts, and its colour replies |
| `TurnCompleteSignal`, `TurnCompleteRuns`, `TurnCompleteGrammar` | the two parsers of turn-complete bells |
| `RendererRecovery`, `RendererRecoveryRuns`, `RendererRecoveryBackoff`, `RendererRecoveryRequests` | the circuit breaker that restarts a crashed or hung renderer, and what becomes of every request for a restart |
| `PaneReconcile`, `PaneReconcileRuns`, `PaneReconcileAnswers` | the pane reconcile handshake, its fallback to the destructive census, and which event has which effect |
| `RustTestTargets` | which crates a push must test |
| `SessionContract`, `FreshAgent`, `FreshAgentOutcome` | session references, the migration of legacy pane trees and exactly what it writes, thread keys |
| `JsonNumbers`, `JsonText`, `SessionNames` | JSON tuple keys of session names, on UTF-16 code units, with every finite JavaScript number |
| `RebindEmitter` | the file names by which session switches are signalled |
| `Basics`, `Ordering` | options, flattening, JavaScript's default string order and sorting |

Code that changes things step by step is modelled by classes and loops (`TerminalStartupProbeState`,
`TurnCompleteSignalParserState`, `Breaker`, `Handshake`, `Emitter`, and the methods of the other
modules), each tied by its `ensures` to a function of the old state; the theorems over runs are about
those functions. What the functions compute is then said without them, so that the constants and the
branches are pinned too: the texts the parsers look for and the replies they send are written out, and
in `PaneReconcileAnswers` and `RendererRecoveryRequests` a run is described by its events and its log
alone.

## What turned out not to hold

Each of these is a lemma, beside the exact condition under which the property does hold where there
is one.

- The replay boundary predicts a disarmed state inside the background query, although an armed parser
  stays armed there, and predicts an armed state inside a startup step, although a disarmed parser
  stays disarmed. `StartupProbeReplay.ReplayBoundaryIsExact` says for which states it is right, and
  `MispredictionsAreReached` feeds the parser its way into both failing states. With nothing pending a
  disarmed parser is replaced by a fresh one, which is armed: `EmptyPendingResumesExactly`.
- A colour of the right length whose characters are no hexadecimal digits is reported all the same, as `NaN`
  or by the digits that could be read: `StartupProbeColors.ChannelExactly`.
- The end of the startup sequence leaves the parser armed at step 7, because the caller's copy of
  `armed` overwrites the `false` written by the step; `StartupProbeRuns.DisarmedNeverReplies` and
  `StartupProbeHandshake.StartupIsAnswered` show that this state never answers again.
- The bell extractor and the bell tracker take different steps on a one-byte introducer nested in a
  control sequence or string, and, once a two-byte string introducer has interrupted a control sequence,
  on what ends the sequence or the string: `TurnCompleteRuns.StepsAgreeExactly` and `FlagsAgreeExactly`
  are the exact condition, `ParsersDisagreeOnNesting` and `ParsersDisagreeInSevenBits` a stream of either
  kind.
- A ready frame that fails validation, arriving after a disconnect, leaves panes waiting with no request
  and no timer of the handshake (each view has its own release): `PaneReconcileRuns.MalformedReadyStrandsPanes`.
  Waiting panes have a request exactly on a negotiated socket: `WaitingPanesHaveARequest`.
- The comment at src/App.tsx:1020-1022 says that no census runs from a stale inventory while offline. After
  an authentication failure a drop of the socket goes unnoticed and the timer runs that census:
  `PaneReconcileRuns.AuthFailureCensusesOffline`. Until one it holds: `FallbacksHaveASocket`.
- The comment at port/contract/generate-ws-contract.ts:402-404 says that undefined in a property's type is
  recorded through `required`. The code looks only at the optional flag of the property, so an object
  whose property is undefined is written without it and rejected: `SchemaEmission.EmptyObjectIsRejected`.
  The schemas accept everything their types emit if and only if, in the types that emit anything, no
  property without the flag may be undefined, and no array element or tuple argument may be undefined
  where null is rejected: `EmissionIsSoundExactly`; `CanEmitExactly` says which types emit anything.
- A union whose kept members are one boolean literal, a tuple, and an object below itself compile to
  schemas that accept more than the type: `LoneBooleanLiteralWidens`, `TupleWidens`, `CycleWidens`.
- Removing repeated session references can lose one when a provider name holds a colon:
  `SessionContract.DedupeLosesNothingExactly`, `ColonsCollide`.
- A clock that goes back, between whatever two readings, lets more than three recoveries start in one
  window: `RendererRecoveryRuns.BackwardClockBreaksTheWindow`. With `AtMostThreeStartsInAnyWindow`, never
  going back is exactly what the clock must satisfy.
- Of two signals with one clock reading, the later sorts first when its number outgrows its six digits
  and its leading digits, as many as the earlier number has, are the smaller number; so 1000000 sorts
  before 999999. `RebindEmitter.NamesInOrder` is the exact order of a pair,
  `SortedDrainIsEmissionOrderExactly` that of a whole run, `SequenceOverflowSortsEarly` the example.
- A signal whose write failed is not repeated: `RebindEmitter.FilesAreTheSwitchesExactly`.

## Model

| member | source | states |
|---|---|---|
| SchemaSynthesis.SynthesizeType | port/contract/generate-ws-contract.ts:460-499 | the compiler terminates on every type graph, cyclic or not, and returns the schema whose meaning the lemmas below establish |
| SchemaSynthesis.ScanMembers | port/contract/generate-ws-contract.ts:399-410 | the loop over the members leaves out undefined and null and notes whether null is listed; `SchemaForm.VariantsInOrder` and the enum lemmas say in which order the rest comes |
| SchemaSynthesis.SynthesizeUnion | port/contract/generate-ws-contract.ts:393-428 | the union loop and its early returns compute the union schema, whose form and order `SchemaForm` establishes and whose meaning `SchemaMeaning` |
| SchemaSynthesis.SynthesizeObject | port/contract/generate-ws-contract.ts:430-457 | filling the property record and the required list gives the object schema, cut off below its own ancestor |
| SchemaForm.StringEnumInOrder | port/contract/generate-ws-contract.ts:398-420 | a union of string literals, with or without undefined and null, compiles to a `const` for one literal and to an `enum` for several; its values are those of the members at strictly increasing positions, which are exactly the positions that are neither undefined nor null; null comes last, in an `anyOf` |
| SchemaForm.NumberEnumInOrder | port/contract/generate-ws-contract.ts:398-424 | the same for number literals |
| SchemaForm.VariantsInOrder | port/contract/generate-ws-contract.ts:393-428 | any other union compiles to one variant for each such position, in order, each the schema of its member one level down, then null if it is listed; a lone variant stands for itself |
| SchemaForm.TupleInOrder | port/contract/generate-ws-contract.ts:489-493 | a tuple compiles to an array whose items are one variant for each argument, in order, or anything for none |
| SchemaForm.ObjectInOrder | port/contract/generate-ws-contract.ts:441-456 | the required names are strictly sorted and exactly those without the optional flag, and exactly the declared names have a schema, that of their type below one more ancestor and one level down |
| SchemaForm.DepthCutsOff | port/contract/generate-ws-contract.ts:466 | below depth 32 everything is accepted, and at depth 32 not yet |
| SchemaMeaning.UnionInhabits | port/contract/generate-ws-contract.ts:399-411 | dropping undefined and remembering null loses no JSON value of a union |
| SchemaMeaning.LiteralUnionMeaning | port/contract/generate-ws-contract.ts:414-424 | a union of string literals, or of number literals, or nothing but null, is accepted exactly |
| SchemaMeaning.NullableAccepts | port/contract/generate-ws-contract.ts:375-377 | wrapping a schema for null adds null and nothing else |
| SchemaMeaning.EnumAccepts | port/contract/generate-ws-contract.ts:371-373 | one literal or many: exactly the listed values are accepted |
| SchemaMeaning.CollapseAccepts | port/contract/generate-ws-contract.ts:367-369 | collapsing variants accepts what some variant accepts |
| SchemaMeaning.ObjectAccepts | port/contract/generate-ws-contract.ts:441-456 | an object schema accepts exactly the objects with every required property present, every declared one accepted, and every other one accepted by the index schema |
| SchemaMeaning.RequiredMeaning | port/contract/generate-ws-contract.ts:447-452 | the sorted required list asks exactly for the properties without the optional flag |
| SchemaMeaning.SynthesisIsSound | port/contract/generate-ws-contract.ts:365-499 | on every graph, at every depth and below every ancestor set, the schema accepts each value that inhabits the type with every property present that is not optional, past the cycle guard and the depth cut-off too |
| SchemaMeaning.SynthesisIsTight | port/contract/generate-ws-contract.ts:393-499 | where nothing below the type loses information and the depth bound is not reached, the schema accepts only inhabitants |
| SchemaMeaning.SynthesisIsExact | port/contract/generate-ws-contract.ts:393-499 | for such types the schema accepts a value if and only if it inhabits the type |
| SchemaMeaning.LoneBooleanLiteralWidens | port/contract/generate-ws-contract.ts:413-416 | a union that keeps only one of the two boolean literals accepts the other one |
| SchemaMeaning.TupleWidens | port/contract/generate-ws-contract.ts:489-493 | every tuple's schema accepts an array of the wrong length |
| SchemaMeaning.UndefinedWidens | port/contract/generate-ws-contract.ts:404-411 | a type of undefined alone accepts every value and has none |
| SchemaMeaning.CycleWidens | port/contract/generate-ws-contract.ts:436-437 | below its own ancestor an object type accepts every object |
| SchemaEmission.EmissionIsSound | port/contract/generate-ws-contract.ts:324-327 | on a graph where nothing that may be undefined is written in a way its schema rejects, every schema at every depth and below every ancestor set accepts each encoding its type emits, properties left out and elements written as null included |
| SchemaEmission.EmissionIsSoundExactly | port/contract/generate-ws-contract.ts:324-499 | the schemas accept everything their types put on the wire if and only if, in every type that emits anything, each property that may be undefined is optional and each array element or tuple that may hold undefined has a schema that accepts null |
| SchemaEmission.CanEmitExactly | port/contract/generate-ws-contract.ts:324-327 | which types emit anything, by a condition on the graph: a union with a member that does, a tuple or object whose arguments or required properties each do or may be undefined, and every other type but undefined |
| SchemaEmission.UndefinedPropertyIsRejected | port/contract/generate-ws-contract.ts:447-448 | a property that may be undefined but is not optional: each encoding may leave it out, and is rejected then, outside the cycle guard |
| SchemaEmission.UndefinedElementIsRejected | port/contract/generate-ws-contract.ts:485-488 | an element that may be undefined: the array of one null is emitted, and accepted exactly when the element schema accepts null |
| SchemaEmission.UndefinedArgumentIsRejected | port/contract/generate-ws-contract.ts:489-493 | a tuple argument that may be undefined: null in its place is emitted, and rejected unless some argument schema accepts null |
| SchemaEmission.AcceptsNullExactly | port/contract/generate-ws-contract.ts:393-499 | which schemas accept null, at every depth and below every ancestor set |
| SchemaEmission.EmptyObjectIsRejected | port/contract/generate-ws-contract.ts:402-448 | a type graph whose object type emits the empty object and whose schema rejects it |
| CanonicalJson.SortKeysDeep | port/contract/generate-ws-contract.ts:97-107 | the recursive loop builds the canonical document |
| CanonicalJson.CanonicalHasSortedKeys | port/contract/generate-ws-contract.ts:97-107 | keys are strictly sorted at every depth |
| CanonicalJson.CanonicalKeepsMeaning | port/contract/generate-ws-contract.ts:91-107 | the JSON value, array order included, is unchanged |
| CanonicalJson.CanonicalDecidesMeaning | port/contract/generate-ws-contract.ts:91-107 | two documents have one canonical form if and only if they are equal up to key order |
| CanonicalJson.CanonicalIsIdempotent | port/contract/generate-ws-contract.ts:91-107 | canonicalising twice is canonicalising once |
| Ordering.SortSorts | port/contract/generate-ws-contract.ts:101 | the default sort is a sorted permutation in UTF-16 order |
| Ordering.SortForgetsOrder | port/contract/generate-ws-contract.ts:452 | sorting gives one result for all arrangements of the same strings |
| Ordering.BeforeIsUtf16Order | port/contract/generate-ws-contract.ts:101 | the order of strings is that of their UTF-16 code units, characters outside the basic plane as surrogate pairs |
| StartupProbes.FindStringSequenceTerminator | shared/terminal-startup-probes.ts:64-79 | the loop finds the first terminator at or after the start, and gives up on an escape at the end of the data |
| StartupProbes.FindCsiSequenceTerminator | shared/terminal-startup-probes.ts:81-90 | the loop finds the first final byte at or after the start |
| StartupProbes.TerminalStartupProbeState.MaybeConsumeCodexStartupStep | shared/terminal-startup-probes.ts:142-161 | a matching sequence advances the step, yields its text or its reply, and clears `armed` after the last one; nothing else changes the state. Which sequences these are `StartupProbeHandshake.StartupIsAnswered` writes out |
| StartupProbes.TerminalStartupProbeState.TakeToken | shared/terminal-startup-probes.ts:224-307 | one round of the loop recognises one token of the rest of the input and has that token's effect |
| StartupProbes.TerminalStartupProbeState.Extract | shared/terminal-startup-probes.ts:211-313 | text, replies and the whole new state are those of parsing the old pending text with the chunk, the caller's `armed` winning at the end; `StartupProbeHandshake.EveryStreamIsAConversation` says in texts what that parsing gives |
| StartupProbeRuns.ParseSplits | shared/terminal-startup-probes.ts:216-312 | parsing a prefix and then its pending text with the rest is parsing the whole |
| StartupProbeRuns.RunIsOneFeed | shared/terminal-startup-probes.ts:211-313 | any number of chunks does what their concatenation does at once |
| StartupProbeRuns.ChunkingDoesNotMatter | shared/terminal-startup-probes.ts:211-313 | two ways to cut one stream give the same text, replies and final state |
| StartupProbeRuns.ParseConserves | shared/terminal-startup-probes.ts:142-312 | the input is segments followed by the pending text; the text shown is the kept segments in order, the dropped ones are exactly the answered queries, one right reply each |
| StartupProbeRuns.RunConserves | shared/terminal-startup-probes.ts:211-313 | the same over a whole run of chunks |
| StartupProbeRuns.RepliesHaveProtocolShape | shared/terminal-startup-probes.ts:18-26 | over every run, whatever the colours, the replies are background replies, then cursor, attributes and foreground in that order, cut off anywhere |
| StartupProbeRuns.DisarmedNeverReplies | shared/terminal-startup-probes.ts:147-159 | a disarmed state, or one past the last step, never replies again |
| StartupProbeReplay.DisarmedPassesEverything | shared/terminal-startup-probes.ts:147-312 | from such a state the text shown and the pending text are the old pending text followed by all input |
| StartupProbeReplay.StepBranchOutput | shared/terminal-startup-probes.ts:191-208 | feeding the remainder to an armed state completes exactly its step, and after the last one leaves it armed at step 7 |
| StartupProbeReplay.TokenExactly | shared/terminal-startup-probes.ts:216-307 | what is recognised at the head of any text: a lone character, a control sequence up to its first final byte, a control string up to its first terminator, or something unfinished, in literal characters |
| StartupProbeReplay.PendingIsUnfinished | shared/terminal-startup-probes.ts:216-311 | what a chunk leaves pending is nothing or the start of something unfinished, in literal characters |
| StartupProbeReplay.ReplayBoundaryIsExact | shared/terminal-startup-probes.ts:179-208 | for every state that is offered a remainder, no future input tells the predicted state from the real one if and only if the state is armed inside a startup step, or is disarmed inside the background query or the last step |
| StartupProbeReplay.EmptyPendingResumesExactly | shared/terminal-startup-probes.ts:170-177 | with nothing pending there is no remainder, and the state that is used then, the one offered or else the initial one, cannot be told from the state itself if and only if the state is armed |
| StartupProbeReplay.RemainderExactly | shared/terminal-startup-probes.ts:167-209 | a remainder is offered if and only if the pending text is a nonempty proper start of the background query at step 0 or a nonempty start of the current step's sequence, and it is the missing rest, the texts written out; a state is offered with a remainder, and without one only to an armed parser past step 0 with nothing pending |
| StartupProbeReplay.MispredictionsAreReached | shared/terminal-startup-probes.ts:179-208 | one chunk takes the initial state into an armed state inside the background query and another into a disarmed state inside the first step, both predicted wrongly |
| StartupProbeReplay.BackgroundBranch | shared/terminal-startup-probes.ts:179-188 | inside the background query the real state keeps its `armed`, so the prediction is right exactly for a disarmed one |
| StartupProbeReplay.DeadStepBranch | shared/terminal-startup-probes.ts:200-207 | for a disarmed state the prediction is right exactly at the last step |
| StartupProbeHandshake.StartupIsAnswered | shared/terminal-startup-probes.ts:18-26 | the startup text, its seven sequences written out in order, with any titles between them, ended by a bell or either string terminator, and in any chunks, gets `ESC[1;1R`, `ESC[?1;2c` and the foreground reply in that order; everything else is shown and the parser ends armed at step 7 |
| StartupProbeHandshake.EveryStreamIsAConversation | shared/terminal-startup-probes.ts:211-313 | every stream, in any chunks, begins with a longest conversation: background queries, then the sequences of the first steps, in order, each with its titles. It is answered query by query and otherwise shown; if what is left is the start of something unfinished it is held back and the parser stays armed at its step, and otherwise it is shown, nothing is answered any more and the parser is disarmed |
| StartupProbeHandshake.TitlesParse | shared/terminal-startup-probes.ts:64-79 | titles between the steps, however they are ended, are shown and change nothing |
| StartupProbeHandshake.OrdinaryTextEndsIt | shared/terminal-startup-probes.ts:226-233 | ordinary text ends the conversation: nothing is answered from there on |
| StartupProbeColors.ColorReplyExists | shared/terminal-startup-probes.ts:92-136 | a reply is built exactly for `#` with three or six characters, even if they are no digits |
| StartupProbeColors.ColorsAreReported | shared/terminal-startup-probes.ts:106-136 | the whole reply to either query in text, for any six characters behind the `#`: code 11 with the background and code 10 with the foreground, each channel twice, in the form `ChannelText` gives it |
| StartupProbeColors.ChannelExactly | shared/terminal-startup-probes.ts:108-118 | any two characters of a colour, read as `parseInt` does and written: two digits in lower case, a single digit behind a zero or a minus, or `NaN` |
| StartupProbeColors.SixDigitReply | shared/terminal-startup-probes.ts:108-136 | a well-formed colour is reported with each channel's two digits doubled, in lower case |
| StartupProbeColors.ThreeDigitReply | shared/terminal-startup-probes.ts:96-104 | the short form of a colour gets the reply of its long form |
| TurnCompleteSignal.TurnCompleteSignalParserState.ExtractSignals | shared/turn-complete-signal.ts:133-250 | the loop over flags, text and count computes the extraction from the old flags; an unsupported mode only gives back a held escape |
| TurnCompleteSignal.TurnCompleteSignalParserState.CountTrackerSignals | shared/turn-complete-signal.ts:36-123 | marking all earlier candidates on each visible character counts exactly the bells with nothing visible before or nothing visible after, and changes no state |
| TurnCompleteRuns.ChunkingDoesNotMatter | shared/turn-complete-signal.ts:149-249 | any split gives the same text, count and final flags |
| TurnCompleteRuns.ExtractionConserves | shared/turn-complete-signal.ts:157-243 | the held escape and the data, less exactly the counted bells, each met outside every sequence and string, are the cleaned text and the new held escape |
| TurnCompleteRuns.TrackerCountInClosedForm | shared/turn-complete-signal.ts:30-123 | from any state the count is all bare bells when nothing is visible, otherwise those before the first visible character plus those after the last |
| TurnCompleteRuns.StepsAgreeExactly | shared/turn-complete-signal.ts:52-108 | from any flags the two parsers take the same step exactly unless a one-byte introducer is nested, or the character ends a control sequence or string while the flags are inside both |
| TurnCompleteRuns.FlagsAgreeExactly | shared/turn-complete-signal.ts:36-250 | from any flags and on any stream, the flags of the two parsers agree before every character if and only if no such character occurs |
| TurnCompleteRuns.OnlyNestingDiffers | shared/turn-complete-signal.ts:36-250 | from flags inside at most one construct, where no string introducer interrupts a control sequence, such a character is a nested one-byte introducer |
| TurnCompleteRuns.ParsersAgree | shared/turn-complete-signal.ts:133-250 | where no such character occurs the extractor deletes exactly the bells the tracker sees |
| TurnCompleteRuns.ParsersDisagreeOnNesting | shared/turn-complete-signal.ts:186-210 | a stream on which they disagree |
| TurnCompleteRuns.ParsersDisagreeInSevenBits | shared/turn-complete-signal.ts:186-243 | a stream of 7-bit characters on which they disagree |
| TurnCompleteGrammar.ExtractsExactlyTheBareBells | shared/turn-complete-signal.ts:133-250 | on every stream built from characters, escapes, control sequences and control strings in 7-bit or 8-bit form, the extractor removes exactly the bells between them |
| TurnCompleteGrammar.PlainBellsCount | shared/turn-complete-signal.ts:22-28 | in a stream of text, white space, controls and bells the tracker counts exactly the bells with nothing printed before them or nothing printed after them, the characters that print written out |
| RendererRecovery.Breaker.PruneAttempts | electron/renderer-recovery.ts:103-105 | keeps, in order, the timestamps less than a window old |
| RendererRecovery.Breaker.StartRecovery | electron/renderer-recovery.ts:139-192 | pushes its timestamp without pruning; a destroyed window fails at once |
| RendererRecovery.Breaker.Request | electron/renderer-recovery.ts:194-245 | skips, refuses, starts or schedules, with the whole new state |
| RendererRecovery.Breaker.Handle | electron/renderer-recovery.ts:247-330 | every handler and timer callback takes the state to that of the step function; `RendererRecoveryRequests` says, by events and log alone, what each of them does |
| RendererRecoveryRuns.RunKeepsInvariant | electron/renderer-recovery.ts:103-245 | the kept timestamps are always the recent part of the whole history, in which any start is a window away from the third before it |
| RendererRecoveryRuns.AtMostThreeStartsInAnyWindow | electron/renderer-recovery.ts:139-245 | with a clock that does not go back, any 60 seconds of any run hold at most three starts |
| RendererRecoveryRuns.NeverInFlightAndScheduled | electron/renderer-recovery.ts:194-245 | whatever the clock does, no reachable state has a recovery both in flight and scheduled |
| RendererRecoveryRuns.CircuitOpensExactly | electron/renderer-recovery.ts:217-229 | an idle breaker refuses a request if and only if the whole history has three starts in the last 60 seconds |
| RendererRecoveryRuns.AttemptNumbersAreBounded | electron/renderer-recovery.ts:142-148 | whatever the clock does, the attempt number that is logged is 1, 2 or 3 |
| RendererRecoveryRuns.UnresponsiveStartsAreJustified | electron/renderer-recovery.ts:303-330 | whatever the clock does, a recovery for a hung renderer starts at a reading at least 15 seconds after that of an unresponsive event with no responsive event since, through timer and backoff |
| RendererRecoveryRuns.BackwardClockBreaksTheWindow | electron/renderer-recovery.ts:141-142 | for any two readings, some run whose clock goes back from the one to the other and nowhere else has four starts in one window |
| RendererRecoveryBackoff.CounterIsFailuresInARow | electron/renderer-recovery.ts:168-190 | the counter is the number of failures since the last success, over every run |
| RendererRecoveryBackoff.StartsBackOff | electron/renderer-recovery.ts:231-244 | after one, two or more failures in a row nothing starts within 250 ms, 1 s or 3 s of the last |
| RendererRecoveryRequests.RequestIsAnswered | electron/renderer-recovery.ts:194-245 | over every run: a request is skipped while a recovery runs or another request waits; otherwise it is refused on an open circuit, started at once after a success, and accepted without a word after a failure |
| RendererRecoveryRequests.CircuitAnswersExactly | electron/renderer-recovery.ts:215-235 | with a clock that does not go back: an idle breaker refuses exactly on three starts in the last 60 seconds, whose number it logs, and an immediate start is numbered one more than them |
| RendererRecoveryRequests.ScheduledTimerStarts | electron/renderer-recovery.ts:239-244 | over every run: the firing of the scheduled timer logs the start of the very request that was accepted, 250 ms, 1 s or 3 s after it was, and a failure too when the window is destroyed |
| RendererRecoveryRequests.AcceptedRequestIsNotLost | electron/renderer-recovery.ts:239-244 | an accepted request was started by its timer, or still waits and can be started from its due time on, or was for being unresponsive and a responsive event withdrew it |
| RendererRecoveryRequests.ExpiredWaitIsNotLost | electron/renderer-recovery.ts:303-330 | after an unresponsive event its timer can fire from 15 seconds on, unless it was answered or repeated meanwhile; when it fires, no earlier, it makes the crash-before-reload request, which `RequestIsAnswered` answers |
| RendererRecoveryRequests.EnabledExactly | electron/renderer-recovery.ts:239-330 | what can happen next, by events and log: the threshold timer 15 seconds after an unresponsive event that still counts, the scheduled timer when the request that waits is due, the end of a recovery while one runs |
| RendererRecoveryRequests.OthersSayNoMore | electron/renderer-recovery.ts:139-330 | every other event logs nothing but the success or failure of the recovery that ends with it |
| RendererRecoveryRequests.DelayedStartIsNumbered | electron/renderer-recovery.ts:139-148 | with a clock that does not go back: a delayed start is numbered one more than the starts of the 60 seconds before its request was accepted |
| PaneReconcile.Handshake.HandleReady | src/App.tsx:1369-1417 | forgets an outstanding request, then sends a new one with its timer, waiting panes and held creates, or releases all |
| PaneReconcile.Handshake.HandleResult | src/App.tsx:1499-1545 | folds, or falls back, on its own id; a foreign result changes nothing. `PaneReconcileAnswers.FoldedExactly` and `FellBackExactly` say which answer does which |
| PaneReconcile.Handshake.HandleTimer | src/App.tsx:1397-1411 | an expired wait releases everything and falls back, unless nothing is outstanding |
| PaneReconcile.Handshake.HandleRecoverableTerminalIds | src/App.tsx:1199-1206 | when a pane shows one of the recovered terminals, all of them leave the cached ids, the rest in order, and nothing else changes |
| PaneReconcile.Handshake.HandleAuthFailure | src/App.tsx:614-628 | unsubscribes the handlers and leaves the request and its timer as they are |
| PaneReconcile.Handshake.Handle | src/App.tsx:1018-1660 | every handler takes the state to that of the step function; `PaneReconcileAnswers` says, by events and log alone, what each of them does |
| PaneReconcileRuns.OutstandingRequestIsTimed | src/App.tsx:598-611 | in every reachable state an outstanding request has an armed timer, armed for it |
| PaneReconcileRuns.WaitingPanesHaveARequest | src/App.tsx:1381-1417 | until teardown, waiting panes have an outstanding request if and only if a well-formed ready came since the last drop that was noticed, and then the request names them all |
| PaneReconcileRuns.MalformedReadyStrandsPanes | src/App.tsx:1309-1313 | a malformed ready after a disconnect leaves panes waiting without one |
| PaneReconcileRuns.NoWaitOutlastsTheTimer | src/App.tsx:1397-1411 | when an outstanding request's timer is due, ten seconds after sending, it can fire and then nothing waits |
| PaneReconcileRuns.TimeoutsWaitTenSeconds | src/App.tsx:1397-1411 | no request is given up for lack of an answer earlier than ten seconds after it was sent |
| PaneReconcileRuns.FallbacksHaveASocket | src/App.tsx:1018-1024 | until an authentication failure, a request is given up, and the census run for it, only on a socket that is up |
| PaneReconcileRuns.AuthFailureCensusesOffline | src/App.tsx:614-628 | a run in which, after an authentication failure and a drop, the timer runs the census with the inventory from before |
| PaneReconcileRuns.RequestsAreConserved | src/App.tsx:1018-1578 | every minted request is folded, fell back, was forgotten, or is the outstanding one |
| PaneReconcileRuns.RequestsEndOnce | src/App.tsx:1499-1578 | a request minted once is folded or given up at most once, never both |
| PaneReconcileRuns.ActiveExactly | src/App.tsx:1369-1411 | reconcile is active if and only if the last ready offered it and nothing fell back since |
| PaneReconcileRuns.CensusNeverWhileOwned | src/App.tsx:1652-1659 | the destructive census never runs while reconcile owns the panes |
| PaneReconcileRuns.CensusUsesLatestInventory | src/App.tsx:1185-1206 | a census, immediate or by fallback, uses the latest inventory, none after a restart, less all the terminals of each recovery since then of which a pane showed one |
| PaneReconcileRuns.CensusSparesExactly | src/App.tsx:1185-1206 | a census spares a terminal if and only if an inventory listed it and since then no inventory replaced the list, no recovery of terminals of which a pane showed one named it and no restart emptied the list |
| PaneReconcileAnswers.FoldedExactly | src/App.tsx:1499-1545 | over every run: an event folds a request if and only if it is the well-formed result for its id, without a violation, and the request was sent and has not ended |
| PaneReconcileAnswers.FellBackExactly | src/App.tsx:1397-1578 | a request is given up, and for which reason, if and only if it was sent and has not ended and the event is the one the reason names: its timer, a malformed result for it, a well-formed one with a violation, an error frame for it |
| PaneReconcileAnswers.DroppedExactly | src/App.tsx:1018-1381 | a request that has not ended is forgotten by exactly a ready frame, or a disconnect while the handlers are subscribed |
| PaneReconcileAnswers.SentExactly | src/App.tsx:1382-1395 | a request is sent by exactly the ready frame that offers reconcile and has something to ask about |
| PaneReconcileAnswers.CensusExactly | src/App.tsx:1652-1659 | the census runs exactly on an inventory that comes while reconcile does not own the panes, and on the known terminals when a request is given up |
| PaneReconcileAnswers.AddedInOrder | src/App.tsx:1018-1417 | one event adds at most two entries: a request is forgotten before the next is sent, and given up before the census |
| PaneReconcileAnswers.PanesWaitExactly | src/App.tsx:1381-1417 | a pane waits exactly since the last ready frame that asked about it, until another ready frame, the end of the request or the release of the pane |
| PaneReconcileAnswers.CreatesWaitExactly | src/App.tsx:1386-1417 | creates are held back exactly since the last ready frame that asked, until another ready frame or the end of the request |
| PaneReconcileAnswers.TimerIsArmedExactly | src/App.tsx:1396-1411 | the timer is armed, for ten seconds, exactly since the last request was sent, until it fires, the request is concluded, the drop of the socket is noticed or everything is torn down |
| PaneReconcileAnswers.ConnectedExactly | src/App.tsx:1309-1380 | the store says connected exactly since a ready frame, valid or not, until a drop that is noticed or an authentication failure |
| RustTestTargets.CrateNameExactly | scripts/hooks/rust-test-targets.ts:42-45 | the crate of a path is the one directory below `crates/`, and no other path has one |
| RustTestTargets.ReverseEdges | scripts/hooks/rust-test-targets.ts:67-75 | the table lists exactly the dependents of each crate, among members that are not excluded |
| RustTestTargets.Close | scripts/hooks/rust-test-targets.ts:77-88 | the worklist terminates on every graph and finds exactly the crates reachable along reversed edges, none twice |
| RustTestTargets.ComputeRustTestPlan | scripts/hooks/rust-test-targets.ts:47-91 | skip, workspace or packages exactly when the changes need it; the packages are strictly sorted and exactly the crates that reach a changed one |
| RustTestTargets.PlanIsDetermined | scripts/hooks/rust-test-targets.ts:47-91 | the plan depends only on which relevant paths changed |
| RustTestTargets.PlanTestsAllReached | scripts/hooks/rust-test-targets.ts:5-6 | whatever the plan, every crate of the lane that depends on a changed one is tested, and nothing outside the lane |
| RustTestTargets.PlanInText | scripts/hooks/rust-test-targets.ts:27-91 | on path texts: nothing is tested exactly when every changed `*.rs`, `Cargo.toml`, `Cargo.lock`, `rust-toolchain*`, `.cargo/*` and `test/fixtures/*` lies in `crates/freshell-tauri/`, and everything exactly when one of them lies in no crate or in one that is no member |
| RustTestTargets.ChangedCrateIsTested | scripts/hooks/rust-test-targets.ts:27-91 | when such a path lies in `crates/<member>/`, that member is tested, and with it every crate that depends on it, however indirectly |
| RustTestTargets.MorePathsTestMore | scripts/hooks/rust-test-targets.ts:2-6 | a push that changes more never tests less |
| SessionContract.SanitizeExactly | shared/session-contract.ts:90-97 | a reference is read from exactly the objects whose two parts are strings that are not empty, as they are |
| SessionContract.CanonicalIdExactly | shared/session-contract.ts:69-81 | the canonical claude ids are the texts of five hexadecimal groups of 8, 4, 4, 4 and 12 digits with version 1 to 5 and the usual variant |
| SessionContract.DedupeSessionRefs | shared/session-contract.ts:99-113 | the loop keeps, in order, the first reference of each key |
| SessionContract.DedupeKeepsTheFirsts | shared/session-contract.ts:99-113 | the references kept stand at strictly increasing positions, exactly those that hold a reference whose key no earlier position has |
| SessionContract.DedupeKeepsOnePerKey | shared/session-contract.ts:99-113 | no reference is repeated or invented, and each key keeps one |
| SessionContract.DedupeLosesNothingExactly | shared/session-contract.ts:106-107 | nothing is lost if and only if the keys tell the references apart |
| SessionContract.ColonsCollide | shared/session-contract.ts:106 | two different references with one key, of which one is lost |
| SessionContract.ColonFreeProvidersTellApart | shared/session-contract.ts:106 | without colons in provider names nothing is lost |
| FreshAgent.DurableIsCanonical | shared/fresh-agent.ts:142-190 | a durable identity has no empty part, and a claude one has a canonical id |
| FreshAgent.ContentMigrationIsIdempotent | shared/fresh-agent.ts:277-424 | migrating a migrated content changes nothing, for every record |
| FreshAgent.RewrittenContentIsSane | shared/fresh-agent.ts:277-424 | a rewritten content never has both a restore error and a reference, never a resume id beside an invalid legacy target, only canonical claude references, and no legacy field; no legacy chat remains |
| FreshAgent.OtherFieldsStay | shared/fresh-agent.ts:298-311 | every other field stays as it was |
| FreshAgent.ReferencesAreNotInvented | shared/fresh-agent.ts:325-361 | a written reference is the one the input had, or its provider with a resume id the input had |
| FreshAgent.ReferencesSurviveExactly | shared/fresh-agent.ts:330-422 | an explicit reference survives if and only if it is acceptable, no restore error was recorded, and a legacy chat's type is known |
| FreshAgentOutcome.RewrittenExactly | shared/fresh-agent.ts:277-424 | a legacy chat is always rewritten, content of the new kind exactly when its type or its provider names a session type, and all other content comes back as it was |
| FreshAgentOutcome.TypeAndProviderAreWritten | shared/fresh-agent.ts:277-424 | which session type and which provider are written, the known names written out |
| FreshAgentOutcome.RestoreErrorExactly | shared/fresh-agent.ts:313-422 | a restore error is written, and with which reason, if and only if one was recorded, or the content cannot be restored: the identity it offers is no canonical claude one, or for a chat the provider is unknown or there is no identity at all |
| FreshAgentOutcome.ReferenceExactly | shared/fresh-agent.ts:313-422 | a reference is written if and only if the content offers it and there is no restore error; the explicit one comes before the first of three resume ids |
| FreshAgentOutcome.ResumeIdExactly | shared/fresh-agent.ts:298-422 | a resume id is written if and only if it stood under that name and the target is not an invalid legacy one |
| FreshAgent.MigrationMapsTheLeaves | shared/fresh-agent.ts:430-450 | the tree migration maps each leaf's content in place and touches nothing else |
| FreshAgentOutcome.NodesAreMigrated | shared/fresh-agent.ts:430-450 | the same paths lead to nodes before and after; each leaf keeps all but its content, each split all but its children, which stay as many, and every other value stays as it is |
| FreshAgent.NodeMigrationIsIdempotent | shared/fresh-agent.ts:430-450 | migrating a migrated tree, or any value, changes nothing |
| FreshAgent.MigratedTreeIsSane | shared/fresh-agent.ts:430-450 | in a migrated tree no leaf is a legacy chat and every rewritten leaf is sane |
| FreshAgent.ThreadKeysAreInjective | shared/fresh-agent.ts:124-134 | thread identities of the declared types share a key only when they are equal |
| JsonText.UnitsRoundTrip | shared/session-names.ts:228-232 | a string literal parser undoes the quoting of every string of UTF-16 code units, lone surrogates included |
| JsonNumbers.NumberRoundTrip | shared/session-names.ts:374 | reading a written number, in whole, fractional or exponent form, gives the number back for every finite JavaScript number |
| JsonNumbers.FormExactly | shared/session-names.ts:374 | a number is written with an exponent exactly from 10 to the 21st on and below one millionth, with a point exactly when there is a fraction, and with a minus exactly when it is negative |
| JsonNumbers.WholeNumbersAreWrittenOut | shared/session-names.ts:374 | a whole number of at most 21 digits is written as its decimal digits |
| JsonText.StringifyRoundTrip | shared/session-names.ts:362-375 | a parser undoes the encoding of every tuple of strings, finite numbers and nulls |
| JsonText.EscapeExactly | shared/session-names.ts:228-232 | which code units are escaped, and how, all constants written out |
| SessionNames.RefKeysAreInjective | shared/session-names.ts:223-232 | two naming refs share a key only when they are equal |
| SessionNames.RefKeyReadsBack | shared/session-names.ts:228-232 | a JSON parser reads from a key the tag "pending" with the id, or "session" with the provider and the session id |
| SessionNames.RefKeyInText | shared/session-names.ts:232 | the key of a session with plain names is the text `["session","<provider>","<id>"]` |
| SessionNames.CandidateIdsAgreeExactly | shared/session-names.ts:344-376 | two candidates share an id if and only if they agree in every entry, an absent one counting as different from the string "null", the two zeros as one time, and a time that is no finite number as an absent one |
| SessionNames.CandidateIdReadsBack | shared/session-names.ts:362-375 | a JSON parser reads the eleven entries back from an id, in their order, an absent one as null |
| RebindEmitter.SessionIdExactly | extensions/opencode/freshell-rebind-plugin.ts:25 | the session ids are `ses_` and at least one letter or digit |
| RebindEmitter.OwnIdExactly | extensions/opencode/freshell-rebind-plugin.ts:34-42 | a text that is an id gives itself, an object the first of `sessionID`, `session_id` and `sessionId` that holds one |
| RebindEmitter.ExtractFindsTheNearest | extensions/opencode/freshell-rebind-plugin.ts:34-45 | the id found is the well-formed one least deep below `params`, and none is found if and only if there is none at any depth |
| RebindEmitter.BelowExactly | extensions/opencode/freshell-rebind-plugin.ts:43-44 | what lies below `params` are the ends of the chains of objects, each held by the one before it under that name |
| RebindEmitter.Emitter.Emit | extensions/opencode/freshell-rebind-plugin.ts:99-117 | each call has the effect of the step function, also when the write fails |
| RebindEmitter.FilesAreTheSwitchesExactly | extensions/opencode/freshell-rebind-plugin.ts:101-117 | the ids on disk are the valid candidates with consecutive repeats removed if and only if no write of a new id failed |
| RebindEmitter.PaddedIsFixed | extensions/opencode/freshell-rebind-plugin.ts:108 | a padded number that fits is its digits at fixed width |
| RebindEmitter.NameInText | extensions/opencode/freshell-rebind-plugin.ts:105-111 | a name is the terminal id, two underscores, the clock reading on at least 14 digits, the number on at least 6 and the process id, with hyphens between |
| RebindEmitter.NamesBeforeExactly | extensions/opencode/freshell-rebind-plugin.ts:105-111 | the order of any two file names of one process, for all clock readings and numbers |
| RebindEmitter.NamesInOrder | extensions/opencode/freshell-rebind-plugin.ts:105-111 | a higher number at the same or a later time gives a later name if and only if the time is later or the lower number is at most the leading digits of the higher; below a million always |
| RebindEmitter.ShiftedIsQuotient | extensions/opencode/freshell-rebind-plugin.ts:108 | those leading digits are the number divided by a power of ten |
| RebindEmitter.SortedDrainIsEmissionOrderExactly | extensions/opencode/freshell-rebind-plugin.ts:105-111 | whatever the clock and however many signals, sorting the directory listing gives the names in emission order if and only if every two signals are in order |
| RebindEmitter.ForwardClockInOrderExactly | extensions/opencode/freshell-rebind-plugin.ts:105-111 | with a clock that does not go back they are, if and only if those of one clock reading are, and always before the millionth signal |
| RebindEmitter.SortedDrainReplaysEmissionOrder | extensions/opencode/freshell-rebind-plugin.ts:105-111 | if every two signals are in order, draining by sorted name replays the ids in emission order, which are the switches if every write succeeded |
| RebindEmitter.SequenceOverflowSortsEarly | extensions/opencode/freshell-rebind-plugin.ts:108 | at one clock reading the number 1000000 sorts before 999999 |
| RebindEmitter.HelloSortsFirst | extensions/opencode/freshell-rebind-plugin.ts:74-89 | the startup file sorts before every signal that is not from an earlier time, whatever its number |
| RebindEmitter.NonceHasNoUnderscore | extensions/opencode/freshell-rebind-plugin.ts:107 | the nonce never contains the delimiter |
| RebindEmitter.NameTellsTheTerminal | extensions/opencode/freshell-rebind-plugin.ts:107-111 | a file name determines the terminal id and the nonce, even if the terminal id contains the delimiter |

## Left out

- The TypeScript checker: the schema compiler starts from a resolved type graph. The isArrayType, isTupleType and isObjectLike tests are taken as the node kinds, and the nodes declare each property name once.
- Types beyond the graph's node kinds (intersections that did not resolve to properties, optional and rest tuple elements) are exotic nodes or plain tuples; an exotic type is taken to admit every value.
- Integer-like keys: JavaScript enumerates them first whatever the insertion order, so `sortKeysDeep` is modelled for ordinary string keys.
- Properties inherited from `Object.prototype`, such as a crate named `constructor` or a property named `__proto__`, are not modelled where the source uses plain objects as tables.
- Lone surrogates in terminal streams, paths and session references: those strings are sequences of Unicode scalar values. The session-name keys are modelled on UTF-16 code units instead.
- SchemaMeaning.SynthesisIsSound: speaks of values with every property present that is not optional; what is written when one is undefined is the subject of SchemaEmission.
- SchemaEmission.EmissionIsSoundExactly: numbers that are no JSON number, written as null, and `toJSON` methods are not modelled; unknown and exotic types are taken to admit undefined.
- Bigint and symbol types are exotic nodes, and enum members are literal nodes.
- RendererRecovery.Breaker.Handle: log metadata, the recovery action itself, window focus and the readiness probe are left out; a recovery ends by an event that says whether it succeeded.
- RendererRecoveryRuns.AtMostThreeStartsInAnyWindow: assumes a clock that does not go back and timers that never fire early on that clock.
- PaneReconcile.Handshake.Handle: the websocket client, the store slices, verdict folding and the other frames of the bootstrap effect are abstract; the held creates are one flag, as App last asked for them.
- PaneReconcile.Handshake.Handle: bootstrap on a socket that another component already connected (src/App.tsx:1945-1985) has no event of its own; on these fields it acts like a ready that fails validation.
- PaneReconcileRuns.RequestsEndOnce: random reconcile ids are assumed not to repeat, which its `requires` says for the id in question.
- PaneReconcileRuns.WaitingPanesHaveARequest: after the teardown, which clears the timer but not the request, only the half about the naming of the panes is promised.
- RustTestTargets.ComputeRustTestPlan: reading cargo metadata, printing the plan and building the command line are left out.
- The terminal and chat variants of the durable-state migration in shared/session-contract.ts, and the placeholder guard in shared/fresh-agent.ts, are one-branch decisions and are left out.
- SessionNames.CandidateIdsAgreeExactly: how JavaScript finds the shortest digits of a binary number is left out; a number is its digits, point and sign.
- RebindEmitter.Emitter.Emit: resolving the target directory from the environment, temporary files and polling are left out; a write either puts the file in place or does not.
- RebindEmitter.ExtractFindsTheNearest: candidates are trees; a candidate object that contains itself is not modelled.
- RebindEmitter.SortedDrainReplaysEmissionOrder: the consumer is outside the modelled code; it is taken to drain names in sorted order, as the plugin's comments say.
- Settings merging, protocol schema declarations, React rendering, Electron windows, HTTP bootstrap, activity overlays and build scripts would add easy members or plumbing only.
