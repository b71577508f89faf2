# gjc-remote: record protocols and bot state machines in Dafny

gjc-remote connects a Discord bot to daemons on other hosts. Its `shared/` layer is a set of
fail-closed record protocols: canonical JSON, hash-chained records and a streaming log reader.
The bot adds a few small state machines of its own. This project models the parts where the
correctness argument spans several functions or a whole run, and proves what they are for:

- `Encoding`, `StrictJson`, `StrictJsonTheorems`, `StrictJsonGrammar`, `StrictJsonParser`: the strict
  parser accepts exactly the spellings of a grammar without positions, and the canonical printer and
  parser are inverse to each other, byte for byte, so a fingerprint stands for one value.
- `StartupEvent`, `StartupSize`, `StartupReducer`, `StartupChunks`, `StartupLines`, `StartupVerdict`,
  `StartupEmitter`, `StartupProgress`, `StartupWriter`, `StartupChannel`: the startup-observation
  channel, from the emitter's write queue under every interleaving to the reducer's verdict under
  every chunking, and what every line and every accepted stream contains.
- `PayloadTree`: sorting and comparing neighbours decides the all-pairs collision condition.
- `Records`, `Samples`, `SuccessorHeads`, `HistorySeal`, `SuccessorReader`: authority heads, the walk to
  the history seal, and the bot's crash-resumable three-write handshake.
- `PublicationGraph`, `TokenFloor`, `TrialBoundary`: what accepted graphs, floors and trial
  boundaries amount to over whole runs.
- `Delivery`, `DeliveryLayout`, `GateStore`, `LegacyLatch`: message splitting, gate answers in flight, and
  the legacy latch.

Text is a sequence of UTF-16 code units; bytes are numbers below 256. Where the source updates
fields or walks with loops, the model is a class or a method with loops, proved against a function;
the theorems are about that function. A thrown error is a refused result (`None`, `Err` or `false`).

SHA-256 over canonical JSON is a function parameter called a digest. Lemmas that need it assume
only that the records at hand do not collide (`NoCollision`) or that digests are 64 hex digits
(`Hexadecimal`). That canonical JSON itself never merges two values is
`StrictJsonGrammar.CanonicalBytesInjective`. Fields with one legal value (`version`, `kind`,
`routeDisposition`, `readerVersion` of a request) are part of the datatype, not carried.

Where the code does less than its description suggests, the model follows the code and says so:

- A line of exactly 16384 bytes plus CR passes when its LF is in the same chunk and faults when the
  chunk ends between CR and LF (`StartupChunks.SplitBeforeLfFaults`); a skipped line of that size
  faults on an empty chunk after its CR. `StartupVerdict.VerdictExact` says exactly when the verdict
  depends on the cutting.
- The emitter does not compare daemon states, so a channel faults exactly when the emitted daemon
  history regresses (`StartupChannel.EndToEnd`), and it can (`StartupChannel.EmitterLetsRegress`). The
  byte limit of an event never refuses a valid one (`StartupSize.EventFits`).
- A rolling head transition does not compare anchors: exactly the well-formed ones are accepted
  (`SuccessorHeads.AnchorNotCarried`).
- The reader validates the history seal without predecessors, so of the bundles that their own
  predecessors seal it completes exactly those whose history marker is at most at sequence two
  (`SuccessorReader.ProceedsExactly`); `HistorySeal.ThirdNeedsItsList` gives one it refuses.
- The publication graph leaves q's baseline, c's reader, k's commit snapshot, y's target state and y's
  fence binding free (`PublicationGraph.AcceptedIsBuilt`).
- A second reservation before a commit makes a token floor unusable for good (`TokenFloor.GapIsFinal`);
  `TokenFloor.CommitReachable` says exactly when a floor is still usable.
- The first observation of a trial is not compared with the captured cursor: any bound cursor is accepted
  (`TrialBoundary.FirstObservationIsFree`), also one that lies behind it (`TrialBoundary.ObservationGoesBack`).
  An attempt stays past its capture exactly when its first observation does
  (`TrialBoundary.PastTheCapture`). The cursor byte limits can never be what refuses a cursor.
- Gate tokens must not repeat while a delivery under them is under way: `GateStore.NextKeeps` is exact, and
  `GateStore.LeakFromEmpty` is a run in which a repeated token lets an old answer settle a new gate.
- A load after the legacy latch closed can still call its source `legacy-v0`, in exactly one case, and then
  without fence and without routes (`LegacyLatch.LegacyAfterLatch`, `LegacyLatch.LatchedYetLegacy`).

## Model

| member | source | states |
|---|---|---|
| `Encoding.AssertStrictText` | shared/strict-json.js:17-32 | the scanning loop accepts exactly the well-formed texts without forbidden control characters |
| `Encoding.DecodeEncode` | shared/strict-json.js:67-69 | decoding the UTF-8 bytes of a well-formed text gives the text back |
| `Encoding.EncodeDecode` | shared/strict-json.js:75-83 | bytes that decode fatally-strict are the encoding of what they decode to, and that is well formed |
| `Encoding.ByteLengthIs` | shared/strict-json.js:19 | the byte length counted without encoding is the length of the encoding |
| `Encoding.Utf8Injective` | shared/strict-json.js:9-11 | two well-formed texts with equal bytes are equal, so byte order is a total order on keys |
| `Encoding.LexTotal` | shared/strict-json.js:9-11 | the byte comparison is total and antisymmetric |
| `Encoding.SortedKeys` | shared/strict-json.js:62 | the key order is strictly increasing and lists every key once |
| `Encoding.SortedUnique` | shared/strict-json.js:62 | no other order of the keys is increasing |
| `StrictJsonParser.Counter.AssertJsonValue` | shared/strict-json.js:34-53 | the walk with its running counter accepts exactly clean values within the depth and node limits, and counts their nodes |
| `StrictJsonParser.Counter.AssertItems` | shared/strict-json.js:44-47 | the item loop of the walk, with the shared counter |
| `StrictJsonParser.Counter.AssertFields` | shared/strict-json.js:49-52 | the member loop of the walk, in any order of the keys |
| `StrictJsonParser.Parser.StringLiteral` | shared/strict-json.js:98-128 | the string loop leaves cursor and result as the grammar says |
| `StrictJsonParser.Parser.ReadValue` | shared/strict-json.js:129-161 | the recursive descent leaves cursor, counter and result as the grammar says |
| `StrictJsonParser.Parser.Members` | shared/strict-json.js:134-144 | the member loop, with duplicate keys refused |
| `StrictJsonParser.Parser.Items` | shared/strict-json.js:145-149 | the item loop |
| `StrictJsonParser.Parse` | shared/strict-json.js:91-163 | the parser with its mutable cursor, up to the end of the text, gives the verdict that `ParseExact` pins |
| `StrictJsonTheorems.ParseValueSound` | shared/strict-json.js:129-162 | every value the parser builds is clean, within depth, and accounts for exactly the nodes counted |
| `StrictJsonTheorems.ParsedIsValid` | shared/strict-json.js:129-162 | a text accepted with default options yields a value the printer accepts under the same limits |
| `StrictJsonTheorems.RenderStrict` | shared/strict-json.js:55-65 | a rendering is itself well-formed text without control characters |
| `StrictJsonGrammar.RoundTrip` | shared/strict-json.js:34-163 | every accepted value whose rendering fits the byte limit parses back to itself |
| `StrictJsonGrammar.CanonicalBytesInjective` | shared/strict-json.js:67-73 | two accepted values with equal canonical bytes are equal |
| `StrictJsonGrammar.CanonicalExact` | shared/strict-json.js:84-89 | the canonical parser accepts exactly the renderings within the byte limit, and each gives its value |
| `StrictJsonGrammar.StringExact` | shared/strict-json.js:98-128 | a string literal is read exactly as far as, and as the text that, quotes and escapes spell |
| `StrictJsonGrammar.ParseExact` | shared/strict-json.js:91-163 | a text is parsed as a value exactly when it spells it under a declarative grammar (white space, literals, escapes, items, members with distinct names) and bytes, depth, nodes and control characters are within the options |
| `StrictJsonGrammar.ParseBytesExact` | shared/strict-json.js:75-83 | bytes are parsed as a value exactly when they are, without a byte-order mark, the encoding of such a text |
| `StrictJsonGrammar.NumberUnique` | shared/strict-json.js:150-160 | an integer has one accepted spelling |
| `StrictJsonGrammar.RenderSpells` | shared/strict-json.js:55-65 | a rendering is a spelling of its value |
| `StrictJsonGrammar.SpellsShortest` | shared/strict-json.js:55-65 | no spelling of a value is shorter than its rendering |
| `StartupEvent.StateRoundTrip` | shared/service-startup-observation.js:153-182 | a state's JSON reads back as the state |
| `StartupEvent.EventRoundTrip` | shared/service-startup-observation.js:198-247 | an event's JSON reads back as the event |
| `StartupEvent.EventJsonValid` | shared/service-startup-observation.js:234-246 | every valid event is within the reader's depth and node limits |
| `StartupSize.EventFits` | shared/service-startup-observation.js:198-247 | the canonical bytes of every valid event are within the event limit, so that limit never refuses one |
| `StartupReducer.Reducer.TakeLine` | shared/service-startup-observation.js:321-350 | one line is ignored, observed or a fault, as the classification says; what a stream of them amounts to is `FoldExact` and `WrapperExact` |
| `StartupReducer.Reducer.TakeLines` | shared/service-startup-observation.js:379-390 | the framing loop feeds every complete line in order and keeps the rest |
| `StartupReducer.Reducer.Consume` | shared/service-startup-observation.js:352-396 | one call is one step; a fault is latched and every later call refused |
| `StartupReducer.Reducer.Report` | shared/service-startup-observation.js:398-419 | the snapshot, with its application-state fingerprint, is of the current reading, and nothing after a fault |
| `StartupReducer.FingerprintPins` | shared/service-startup-observation.js:402-415 | the application-state fingerprint stands for one sequence and state |
| `StartupLines.DaemonStateExactly` | shared/service-startup-observation.js:163-182 | a daemon state is valid exactly when accepted, attempted and connection generation are nested, null as zero, and the registration says how far the current connection got |
| `StartupLines.HistoryExactly` | shared/service-startup-observation.js:280-287 | a daemon history does not regress exactly when no generation falls between any two of its events, however far apart |
| `StartupLines.FoldExact` | shared/service-startup-observation.js:321-350 | a child stream is accepted exactly when no line is a fault by itself, its events are numbered 1, 2, … and never go back; then the reader holds the last of them and their number |
| `StartupLines.WrapperExact` | shared/service-startup-observation.js:341 | a wrapper stream is accepted exactly when every line is ignored |
| `StartupLines.ShapedExactly` | shared/service-startup-observation.js:249-254 | a line is shaped like an event exactly when the kind occurs in it or two of the three long field names do |
| `StartupLines.BraceFirst` | shared/service-startup-observation.js:322-324 | a line looks like JSON exactly when its first byte after blanks, tabs and carriage returns opens an object |
| `StartupLines.ValidateExactly` | shared/service-startup-observation.js:198-247 | a value is read as an event exactly when it is the JSON of that valid event of this process |
| `StartupLines.ObservedExactly` | shared/service-startup-observation.js:321-345 | a line is an event exactly when it looks like one and spells, within the event limit, the JSON of a valid event that this very process reports |
| `StartupLines.FieldCountIs` | shared/service-startup-observation.js:264-267 | the scan for field names counts the places where a quoted field name is followed by a colon |
| `StartupLines.IgnoredExactly` | shared/service-startup-observation.js:321-341 | a line is ignored exactly when it is not shaped like an event and, where it looks like JSON, no text it carries has the kind or three field names |
| `StartupLines.ReadyExactly` | shared/service-startup-observation.js:184-196 | an event of this process is ready exactly when it shows the expected hosts connected, or the target accepted on the current connection |
| `StartupLines.ReportExactly` | shared/service-startup-observation.js:398-419 | after an accepted stream the report is of its last event, and ready exactly when that event is and no partial line is pending |
| `StartupChunks.FeedIsFold` | shared/service-startup-observation.js:379-390 | the framing loop is a fold over the complete lines plus the length checks |
| `StartupChunks.LinesAppend` | shared/service-startup-observation.js:379-390 | cutting a stream into lines is compatible with cutting it into chunks |
| `StartupChunks.RunIsWhole` | shared/service-startup-observation.js:352-396 | a run without fault ends exactly where a reader of the two whole streams would |
| `StartupChunks.ChunkInvariance` | shared/service-startup-observation.js:321-433 | any two call sequences delivering the same bytes that run without fault end in the same state, snapshot and partial-line counts |
| `StartupChunks.VerdictIsWhole` | shared/service-startup-observation.js:352-396 | within the limits a run faults exactly when the whole streams do |
| `StartupChunks.AcceptedIsWithin` | shared/service-startup-observation.js:352-396 | a run without fault has delivered no line over the limit without its CR, complete, unfinished or skipped |
| `StartupVerdict.CutPasses` | shared/service-startup-observation.js:352-396 | within the limits, cutting after every line break passes, for both streams, resumed or not |
| `StartupVerdict.WeakFaults` | shared/service-startup-observation.js:361-390 | if some line is over the limit with its CR, there is a cutting of the same bytes that faults |
| `StartupVerdict.VerdictExact` | shared/service-startup-observation.js:352-396 | all cuttings and interleavings of the same bytes agree exactly when they always fault (too many bytes, a faulting line, a line over the limit without its CR) or no line is over the limit with its CR |
| `StartupVerdict.AfterTheCr` | shared/service-startup-observation.js:361-377 | a skipped line one CR over the limit faults on everything but a chunk that starts with its line break, also on an empty chunk |
| `StartupVerdict.SkippedCrExact` | shared/service-startup-observation.js:363-370 | a skipped line that ends one CR over the limit passes exactly when the last call brought bytes |
| `StartupChunks.SplitBeforeLfFaults` | shared/service-startup-observation.js:383-389 | a full line and its CR pass in one chunk and fault when split before the LF |
| `StartupChunks.BlankLineIgnored` | shared/service-startup-observation.js:322-324 | lines of blanks are such lines, at any length |
| `StartupEmitter.NextKeeps` | shared/service-startup-observation.js:453-565 | every step of emit, callback, error, microtask, flush and close keeps the queue invariant |
| `StartupEmitter.RunKeeps` | shared/service-startup-observation.js:453-565 | so does every run |
| `StartupEmitter.QueueIsSafe` | shared/service-startup-observation.js:444-565 | over all interleavings: pending bytes are the queued and active bytes and at most 64 KiB, lines are written in sequence without gaps, each promise settles at most once, a resolved flush means every earlier line was acknowledged, and nobody is left waiting |
| `StartupEmitter.FailureIsFinal` | shared/service-startup-observation.js:457-470 | after a failure nothing is written and no line is settled again |
| `StartupEmitter.LateCallback` | shared/service-startup-observation.js:494 | a late or repeated write callback does nothing |
| `StartupProgress.EveryFlushCounts` | shared/service-startup-observation.js:472-482 | over every run each flush asked for is settled once or still waiting, and a rejected flush or line means the emitter failed |
| `StartupProgress.EmitExactly` | shared/service-startup-observation.js:511-544 | an open emitter accepts a state exactly when it makes a valid event of this process whose line still fits the queue, and fails otherwise |
| `StartupProgress.CloseStops` | shared/service-startup-observation.js:552-565 | once closing, no run accepts anything more |
| `StartupProgress.CloseAsks` | shared/service-startup-observation.js:552-565 | closing asks for one flush, resolved at once when nothing is outstanding |
| `StartupProgress.Drains` | shared/service-startup-observation.js:484-509 | from every state of a run that has not failed, a writer that answers brings the queue to rest |
| `StartupProgress.RestMeans` | shared/service-startup-observation.js:472-509 | at rest every accepted line was written and acknowledged in order and every flush resolved |
| `StartupWriter.WriteQueue.Emit` | shared/service-startup-observation.js:511-544 | emitting is the machine's emit step |
| `StartupWriter.WriteQueue.Pump` | shared/service-startup-observation.js:484-509 | pumping starts the next write, or resolves the waiters once nothing is left |
| `StartupWriter.WriteQueue.OnWritten` | shared/service-startup-observation.js:493-505 | the write callback is the machine's acknowledgement step |
| `StartupWriter.WriteQueue.SettleFailure` | shared/service-startup-observation.js:453-470 | failing rejects everything outstanding, once |
| `StartupWriter.WriteQueue.Flush` | shared/service-startup-observation.js:546-550 | flushing is the machine's flush step |
| `StartupChannel.LineReadsBack` | shared/service-startup-observation.js:321-345 | the line of an accepted event is classified as that very event |
| `StartupChannel.FoldOfEvents` | shared/service-startup-observation.js:280-350 | the lines of numbered events fold without fault exactly when the daemon history does not regress |
| `StartupChannel.EndToEnd` | shared/service-startup-observation.js:321-544 | whatever the interleavings and the chunking, fresh or resumed, beside any wrapper output within the line limit: reading any prefix of the written bytes faults exactly when a wrapper line does or the events of its complete lines regress, and otherwise leaves the last of them and their number |
| `StartupChannel.EmitterLetsRegress` | shared/service-startup-observation.js:511-544 | an emitter run whose accepted daemon states go back, and whose own lines then fault |
| `PayloadTree.Compare` | shared/deployment-envelope.js:159-167 | the comparator loop is the lexicographic order of key sequences, zero exactly on equal keys |
| `PayloadTree.KeyTotal` | shared/deployment-envelope.js:159-167 | that order is total and antisymmetric |
| `PayloadTree.Between` | shared/deployment-envelope.js:146-148 | whatever sorts between two paths shares the directories they share |
| `PayloadTree.NeighboursDecide` | shared/deployment-envelope.js:168-182 | in key order, comparing neighbours is comparing all pairs |
| `PayloadTree.Sort` | shared/deployment-envelope.js:159-167 | sorting in place leaves a sorted permutation |
| `PayloadTree.Neighbour` | shared/deployment-envelope.js:171-181 | the two inner loops decide the condition on one pair |
| `PayloadTree.ValidatePayloadTreePaths` | shared/deployment-envelope.js:145-183 | accepted exactly when, with the reserved inventory path, no path's segments are another's or begin another's, and on Windows the same of their folds, with directories that fold alike spelled alike |
| `PayloadTree.VerdictOrderIrrelevant` | shared/deployment-envelope.js:145-183 | the verdict does not depend on the order of the entries |
| `PayloadTree.WindowsIsStricter` | shared/deployment-envelope.js:153-156 | whatever the folding, two paths' segments that coexist on Windows coexist elsewhere |
| `PayloadTree.CoexistMeans` | shared/deployment-envelope.js:149-183 | the condition on keys is the condition on segments and their folds |
| `PayloadTree.CaselessTwins` | shared/deployment-envelope.js:153-156 | on Windows two names with the same fold are refused |
| `PayloadTree.FileAndDirectory` | shared/deployment-envelope.js:171-181 | a file and a path below it are refused everywhere |
| `SuccessorHeads.StepShape` | shared/successor-envelope.js:262-296 | a transition goes up one phase inside a transaction, or from its end to the start of the next |
| `SuccessorHeads.HeadPosition` | shared/successor-envelope.js:262-296 | head i of a run from nothing is in phase i mod 5, with sequence and fence advanced by i div 5 |
| `SuccessorHeads.WithinTransaction` | shared/successor-envelope.js:278-288 | inside a transaction identity fields never change and evidence, once set, is never altered |
| `SuccessorHeads.ReceiptCarries` | shared/successor-envelope.js:289-295 | a new transaction names the receipt its predecessor ended with |
| `SuccessorHeads.UniqueHistory` | shared/successor-envelope.js:251-296 | two accepted runs ending in the same head fingerprint are the same run of heads |
| `SuccessorHeads.NeverRepeats` | shared/successor-envelope.js:262-296 | no head occurs twice in a run, whatever the hash |
| `SuccessorHeads.AnchorNotCarried` | shared/successor-envelope.js:289-295 | a rolling transition under another anchor is accepted exactly when that anchor is well formed |
| `SuccessorHeads.AdvanceExactly` | shared/successor-envelope.js:251-288 | inside a transaction exactly these heads come next: the phase above, same identity and fence, every fingerprint due there, none too early, none altered |
| `SuccessorHeads.OpenExactly` | shared/successor-envelope.js:262-296 | a transaction opens exactly with a well-formed reserved head, after a terminal one with the next sequence, the next fence and its receipt |
| `SuccessorHeads.RequestPinned` | shared/successor-envelope.js:251-296 | a head meets a request exactly when the request is its own, and a first head when also the fence before it is the one named |
| `SuccessorHeads.RunsOfEveryLength` | shared/successor-envelope.js:251-296 | whatever the hash, runs through the five phases exist at exactly the lengths whose sequences and fences are safe integers |
| `SuccessorHeads.CallsAccepted` | shared/successor-envelope.js:251-296 | such a run in which every head answers its own request under its root |
| `HistorySeal.IndexPredecessors` | shared/successor-envelope.js:51-56 | the map is filled exactly when all predecessors are valid and distinct, and indexes them |
| `HistorySeal.Walk` | shared/successor-envelope.js:57-68 | the walk succeeds exactly when a fence-incrementing chain links seal to marker through the list |
| `HistorySeal.ValidateSeal` | shared/successor-envelope.js:40-70 | acceptance of the whole seal check, both directions |
| `HistorySeal.SealedFence` | shared/successor-envelope.js:57-68 | a sealed marker's fence is the seal's plus its sequence minus one |
| `HistorySeal.NoPredecessors` | bot/src/managed-authority-reader.js:211 | without predecessors only the seal's direct successor is accepted beyond the seal |
| `HistorySeal.SealedWithoutList` | shared/successor-envelope.js:40-70 | a sealed marker is still sealed without its list exactly up to sequence two |
| `HistorySeal.ThirdNeedsItsList` | shared/successor-envelope.js:57-68 | whatever the hash, a history of three that is sealed with its list and not without |
| `HistorySeal.SealedOfEveryLength` | shared/successor-envelope.js:27-70 | a history under one anchor is sealed by its own inner markers exactly when sequences and fences are safe, the anchor is well formed and the hash tells those markers apart |
| `HistorySeal.ListOrderAndExtrasIrrelevant` | shared/successor-envelope.js:51-68 | list order and unrelated valid extras do not matter |
| `HistorySeal.UniqueChain` | shared/successor-envelope.js:40-70 | one marker has one history, whichever lists it was checked against |
| `SuccessorReader.TransactionExists` | shared/successor-envelope.js:125-202 | valid requests, fences and finalities exist together, whatever the hash |
| `SuccessorReader.LeasePinned` | shared/successor-envelope.js:209-217 | for a valid request and fence exactly one lease passes, the one the reader builds |
| `SuccessorReader.ProjectionPinned` | shared/successor-envelope.js:219-227 | exactly one projection passes |
| `SuccessorReader.AckPinned` | shared/successor-envelope.js:229-237 | exactly one acknowledgement passes |
| `SuccessorReader.SlotsPinned` | shared/successor-envelope.js:307-360 | the reader's slots are accepted exactly when they hold a beginning of the script of three records |
| `SuccessorReader.AttemptResumes` | bot/src/managed-authority-reader.js:221-260 | an invocation resumes exactly where the last one stopped |
| `SuccessorReader.CrashResume` | bot/src/managed-authority-reader.js:201-261 | under any schedule of crashes and reruns the slots fill in order, no invocation is refused, and each record is written at most once |
| `SuccessorReader.SameAsUninterrupted` | bot/src/managed-authority-reader.js:201-261 | any schedule long enough ends as the uninterrupted run |
| `SuccessorReader.WriteMissing` | bot/src/managed-authority-reader.js:221-260 | the three conditional writes do exactly that attempt |
| `SuccessorReader.CompletePending` | bot/src/managed-authority-reader.js:201-261 | writes happen only past the floor, seal, phase and fence checks, and otherwise nothing changes |
| `SuccessorReader.LongHistoryNeverProceeds` | bot/src/managed-authority-reader.js:211 | with a history marker past sequence two the reader never writes |
| `SuccessorReader.ProceedsExactly` | bot/src/managed-authority-reader.js:201-213 | with everything else in place, a bundle sealed by its own predecessors proceeds exactly when its history marker is at most at sequence two |
| `PublicationGraph.AcceptedIsBuilt` | shared/publication-envelope.js:36-135 | a graph is accepted exactly when it is what the builders make of its free fields |
| `PublicationGraph.BuiltIsAccepted` | shared/publication-envelope.js:107-117 | every valid choice of the free fields builds an accepted graph, and distinct choices distinct graphs |
| `PublicationGraph.GraphPinned` | shared/publication-envelope.js:118-135 | the fingerprint of y fixes all twelve records, also the four that nothing points to |
| `TokenFloor.StepCounts` | shared/genesis-envelope.js:85-122 | what one successful reserve, attest or commit does to the two marks, the fence and the transaction ids |
| `TokenFloor.ReserveExactly` | shared/genesis-envelope.js:85-92 | a reservation succeeds exactly on a valid floor that is not attested, for the next generation and any fence not below the floor's |
| `TokenFloor.AttestExactly` | shared/genesis-envelope.js:109-131 | an attestation succeeds exactly on the only open reservation |
| `TokenFloor.CommitExactly` | shared/genesis-envelope.js:116-122 | a commit succeeds exactly on an attested floor, for its generation and transaction and any fence not below the floor's |
| `TokenFloor.RunCounts` | shared/genesis-envelope.js:75-131 | over any run the floor stays valid, the fence is monotone and each mark rises by exactly the number of its steps |
| `TokenFloor.CommitFollowsReservation` | shared/genesis-envelope.js:116-122 | a commit takes the next generation and names the run's latest reservation |
| `TokenFloor.StuckIsFinal` | shared/genesis-envelope.js:109-131 | a stuck floor only ever reserves again |
| `TokenFloor.GapIsFinal` | shared/genesis-envelope.js:109-131 | once two reservations are open nothing can be attested or committed |
| `TokenFloor.CommitReachable` | shared/genesis-envelope.js:75-131 | a floor can still reach a commit exactly when it is not stuck |
| `TrialBoundary.SpanIsBytes` | shared/service-lifecycle-envelope.js:690-703 | contiguous files span exactly their bytes and stay far below the byte limit |
| `TrialBoundary.ValidateFamilyCursor` | shared/service-lifecycle-envelope.js:680-712 | the loop accepts exactly contiguous, distinct, valid files ending at the next offset, or a proven absence |
| `TrialBoundary.ValidateCursorSet` | shared/service-lifecycle-envelope.js:724-750 | the set check, with its byte limit never reached |
| `TrialBoundary.RunNumbers` | shared/service-lifecycle-envelope.js:830-865 | revision rises by one a step and attempt by at most one |
| `TrialBoundary.WithinAttempt` | shared/service-lifecycle-envelope.js:839-858 | within an attempt the window is fixed, ticks and observed offsets never go back, an observed trial stays observed and its wrapper epoch is fixed |
| `TrialBoundary.TicksNeverGoBack` | shared/service-lifecycle-envelope.js:833-864 | while the boot stays the same the clock never goes back, across attempts too |
| `TrialBoundary.EvidenceCovers` | shared/service-lifecycle-envelope.js:871-907 | accepted evidence covers every offset observed earlier in its attempt, before the attempt's deadline |
| `TrialBoundary.RestartExactly` | shared/service-lifecycle-envelope.js:830-865 | a boundary begins the next attempt exactly when it is a captured one with a valid window and bound cursor, starting no earlier than the last tick while the boot is the same |
| `TrialBoundary.ObserveExactly` | shared/service-lifecycle-envelope.js:830-858 | an observation is accepted exactly within the window, with two epochs, of the known wrapper, and with a bound cursor whose logs are read on |
| `TrialBoundary.EvidenceExactly` | shared/service-lifecycle-envelope.js:871-907 | evidence is accepted exactly about an observed boundary, in its window, with what the boundary fixes and a bound cursor whose logs are read on |
| `TrialBoundary.RunsOfAnyLength` | shared/service-lifecycle-envelope.js:768-907 | whatever the hash, there are accepted runs of every countable length that capture and observe attempt after attempt, each observation with accepted evidence |
| `TrialBoundary.FirstObservationIsFree` | shared/service-lifecycle-envelope.js:842-858 | after a capture, a first observation with a given cursor is accepted exactly when the cursor is valid and bound to the attempt |
| `TrialBoundary.CaptureFixed` | shared/service-lifecycle-envelope.js:842-843 | the captured cursor is the same throughout an attempt |
| `TrialBoundary.PastTheCapture` | shared/service-lifecycle-envelope.js:839-907 | everything observed of an attempt, and all evidence for it, is past the captured cursor exactly when its first observation is |
| `TrialBoundary.ObservationGoesBack` | shared/service-lifecycle-envelope.js:830-865 | whatever the hash, an accepted first observation whose offset lies behind the captured one |
| `Delivery.SplitForDiscord` | bot/src/delivery.js:108-137 | the two loops and the flushing closure compute the layout |
| `Delivery.TakeLine` | bot/src/delivery.js:122-134 | one turn of the second loop, flush included, is one step of the layout |
| `Delivery.CutLines` | bot/src/delivery.js:109-117 | the first loop cuts every line into pieces within the budget |
| `Delivery.ChunkLength` | bot/src/delivery.js:119-136 | no chunk is longer than the limit plus four |
| `Delivery.BoundIsMet` | bot/src/delivery.js:121-134 | for every limit from fifteen on, a fence opener that fills a chunk reaches that bound |
| `Delivery.FencesPaired` | bot/src/delivery.js:122-134 | every chunk but the last shows an even number of fence lines, and the last one does exactly when the pieces do |
| `Delivery.LayoutShape` | bot/src/delivery.js:122-136 | a code block is reopened exactly where it was closed, and other messages begin with text |
| `Delivery.PiecesInOrder` | bot/src/delivery.js:108-137 | all non-empty pieces appear once and in order, and only line breaks are ever lost |
| `Delivery.NothingEmpty` | bot/src/delivery.js:122-136 | no message is empty, and none is sent exactly when the text is nothing but line breaks |
| `DeliveryLayout.FenceExactly` | bot/src/delivery.js:133 | a fence line is three backticks after white space alone |
| `DeliveryLayout.CutExactly` | bot/src/delivery.js:111-116 | a line is cut as late as possible: all pieces but the last are full, and only an empty line has an empty piece |
| `DeliveryLayout.PiecesExactly` | bot/src/delivery.js:109-117 | the pieces are those of every line in turn, empty lines included |
| `DeliveryLayout.LayoutExactly` | bot/src/delivery.js:119-136 | the layout is the only one in which a message ends just when the next line and its closing fence no longer fit, and blank lines are lost only where a message would begin with them |
| `Delivery.Deliver` | bot/src/delivery.js:67-106 | every part sent is at most 1917 characters, labelled in order, and an attachment with the whole text is used exactly past seven parts |
| `GateStore.CreateKeeps` | bot/src/gate-answer.js:24-66 | making a gate keeps the store valid, drops only terminal entries and changes no other |
| `GateStore.EvictMakesRoom` | bot/src/gate-answer.js:31-40 | there is no room exactly when every entry is live |
| `GateStore.NextKeeps` | bot/src/gate-answer.js:24-202 | an interleaved step keeps the index inverse, the capacity and at most one delivery an entry exactly when it makes no gate under the token of a delivery under way |
| `GateStore.RunKeeps` | bot/src/gate-answer.js:24-202 | so does every run of such steps |
| `GateStore.StoreIsSafe` | bot/src/gate-answer.js:10-202 | from the empty store, with tokens that never repeat, every interleaving keeps all of it |
| `GateStore.RunOver` | bot/src/gate-answer.js:103-123 | over a whole run a retired gate keeps its state while stored, never comes back, and no new answer to it begins |
| `GateStore.Lifecycle` | bot/src/gate-answer.js:68-123 | the only ways a stored gate changes, and by whom: opened once bound, begun by its own user on its own message, settled by its own delivery, or retired |
| `GateStore.BeganExactly` | bot/src/gate-answer.js:92-101 | an answer begins exactly for an open gate, its user and its message, whether it is a reply to that message or none |
| `GateStore.BoundExactly` | bot/src/gate-answer.js:68-83 | a message is bound exactly to a gate being presented without one, if no gate has that message |
| `GateStore.ActivatedExactly` | bot/src/gate-answer.js:85-90 | a gate opens exactly when it is being presented and bound |
| `GateStore.RetiredExactly` | bot/src/gate-answer.js:117-123 | a live gate is retired in exactly the terminal state asked for |
| `GateStore.AnswersTell` | bot/src/gate-answer.js:68-123 | what a caller is told: whether the gate changed, and of a retirement whether it now is in the state asked for |
| `GateStore.EvictsOldest` | bot/src/gate-answer.js:31-37 | a full store drops the terminal entry that was made first |
| `GateStore.MadeExactly` | bot/src/gate-answer.js:38-66 | a gate is made exactly with room, a token of fitting length that is not stored, and complete identifiers |
| `GateStore.LateResult` | bot/src/gate-answer.js:193-199 | a result after retirement changes nothing |
| `GateStore.TimelyResult` | bot/src/gate-answer.js:193-199 | a result in time settles exactly its own gate |
| `GateStore.LiveStays` | bot/src/gate-answer.js:31-40 | a live gate is never dropped |
| `GateStore.ReusedTokenLeaks` | bot/src/gate-answer.js:164-202 | if a dropped token is made again, the old delivery settles the new gate |
| `GateStore.LeakFromEmpty` | bot/src/gate-answer.js:24-202 | a run from the empty store that reaches this |
| `GateStore.GatePresentationStore.Make` | bot/src/gate-answer.js:24-66 | the eviction loop and the refusals |
| `GateStore.GatePresentationStore.BeginAnswer` | bot/src/gate-answer.js:92-101 | an answer begins exactly for the gate's own user and message, as a reply or not, as `BeganExactly` states it |
| `GateStore.GatePresentationStore.SettleAnswer` | bot/src/gate-answer.js:103-115 | completing and rejecting act only on a gate being answered |
| `GateStore.GatePresentationStore.RetireGate` | bot/src/gate-answer.js:117-123 | retiring never overwrites a terminal state |
| `GateStore.GatePresentationStore.FindMessage` | bot/src/gate-answer.js:135-141 | finds the one entry bound to the message, if its channel agrees |
| `GateStore.GatePresentationStore.FindReply` | bot/src/gate-answer.js:125-133 | finds an entry exactly when its own user replies while it can be answered |
| `LegacyLatch.CleanRead` | bot/src/config.js:45-108 | a read is verified exactly when no marker exists on either side and the file did not change under it, and carries the bytes and the fence of that moment |
| `LegacyLatch.MarkedRead` | bot/src/config.js:53-70 | a read reports a marker exactly when one stands before it, and one that comes up during the read is an error |
| `LegacyLatch.AuthoritySelection.Observe` | bot/src/config.js:14-34 | the latch only closes |
| `LegacyLatch.LoadMapping` | bot/src/config.js:352-424 | a load and the latch after it |
| `LegacyLatch.LatchRun` | bot/src/config.js:352-424 | over any run of loads the latch is the memory of a managed marker, and a latched legacy mapping has neither fence nor routes |
| `LegacyLatch.LegacyAfterLatch` | bot/src/config.js:393-420 | exactly when a latched load still says legacy-v0 |
| `LegacyLatch.LatchedYetLegacy` | shared/mapping-envelope.js:98-104 | such a snapshot, for every strict legacy target |
| `LegacyLatch.ReadyMeans` | bot/src/managed-dispatch.js:5-27 | a ready route means no load ever showed a marker, the re-read bytes are those the map was parsed from, and no marker exists just before or after that read |
| `LegacyLatch.NeverReadyAfterMarker` | bot/src/managed-dispatch.js:5-27 | once a marker was seen no channel is ready again |
| `LegacyLatch.LegacyLoadExactly` | bot/src/config.js:352-424 | a load makes a fenced legacy map exactly from an unlatched, verified snapshot without control root that parses, and with those routes |
| `LegacyLatch.ManagedLoadExactly` | bot/src/config.js:393-420 | a load makes a managed map exactly from a natively verified snapshot whose envelope and routes pass |
| `LegacyLatch.FailedLoadBlocks` | bot/src/managed-dispatch.js:5-27 | after a load that failed nothing is ready |
| `LegacyLatch.ReadyExactly` | bot/src/managed-dispatch.js:5-27 | a channel is ready with a route exactly when a fenced legacy map in force gives it and the re-read is clean and finds that fence |
| `LegacyLatch.RouteFromDisk` | bot/src/managed-dispatch.js:5-27 | after any run of loads a ready route is the one that the bytes now on disk give the channel |
| `LegacyLatch.UnchangedStaysReady` | bot/src/managed-dispatch.js:5-27 | a cleanly loaded legacy map stays ready while the file and its surroundings do not change |

## Left out

- SHA-256, Ed25519, scrypt and base64: digests are parameters; collision freedom is assumed where stated.
- Numbers are integers, so negative zero and fractions do not arise as values; their texts are refused as in the source.
- Prototype, accessor and property-descriptor checks of JavaScript objects: datatypes have none.
- `initialPartialLineBytes` and option objects are taken as validated; the model allows any discard count.
- The daemon target fingerprint: a hash of configuration.
- Case folding in `PayloadTree` is a parameter; Unicode tables are not modelled. The array sort is an insertion sort, since the engine's algorithm is not visible; equal keys are refused whatever their order.
- Inventory building around the path check (byte budget, totals, tree fingerprint): flat checks.
- The predecessor tuple of requests and heads, close proofs, baselines, receipts and the rest of the successor bundle: field-equality lists.
- `SuccessorReader.CompletePending`: published floors and live proofs are inputs, and what stops an invocation is not told apart.
- Name patterns of services, log files, transaction ids and nonces in `TrialBoundary` are parameters.
- The expected-graph argument of the publication check and the value-domain errors of hashing.
- `Delivery.Deliver`: the note of an attachment message, pauses between messages and components.
- `GateStore`: entries are values; a caller that keeps an entry object and changes other fields of it is not modelled, except for its channel.
- `LegacyLatch`: parsers of channel maps and envelopes are parameters; the file system is sampled once per call.
- Discord client code, native storage, access control, Git, release tooling, daemon workspaces and the WebSocket protocol.
- Genesis handshake of the reader, service deployment and lifecycle records beyond trial boundaries.
