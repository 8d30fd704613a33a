# OpenTLV verification

A Dafny model of the parts of OpenTLV that carry the hardest promises, with proofs of those promises:

- the **Format contract layer** (`FormatContract`), which turns arbitrary decode, measure and encode callbacks into
  guaranteed results;
- the **case generator** (`Mixer`, `Generator`), which produces trees of elements over an untrusted Format within a
  budget, re-checking every element it emits, and the plan it follows (`GeneratorPlan`), a function of Format and
  options alone;
- the Go **Reader** and **Writer** (`Reader`, `Writer`), a sliding-window reader and a staged tree writer, over native
  calls given as lawful functions (`NativeCalls` derives such functions from any Format);
- a **hand-written Format** (`Le16`) that meets every law the other parts assume, and the **round trips** that follow
  (`Streams`, `RoundTrip`);
- the streaming **UTF-8 validator** (`Utf8`), sections 3 and 4 of RFC 3629;
- the **call-graph audit** (`CallGraph`) and the **Callgrind profile parser** (`Profile`), with what a profile says, read
  off its lines (`ProfileMeaning`);
- the **JSON emitter** of the browser binding (`JsonText`, `JsonTree`, `JsonElement`, `JsonEmitter`), and an independent
  reader of JSON (`Json`, `JsonReading`) that recovers the visited elements from its text; strings as in section 7 of
  RFC 8259;
- the Lua document binding's **handle registry** (`NodeHandles`) and **stackless tree walk** (`DocumentWalk`);
- **integer codecs, decimal text and diagnostic paths** (`Endian`, `Decimals`, `DiagnosticPath`).

`Tlv` holds what they share. Code that updates state in place is a class with methods proved against functions of the
old state; the laws are lemmas about those functions. `SIZE_MAX` and the largest Go `int` are constants of which only
bounds are known, so every result holds on 32-bit and 64-bit platforms alike; wrapping arithmetic is written out.

A Format's callbacks are deterministic functions of their inputs about which nothing else is assumed. An encoder's
effect on its destination is a map from positions to stored bytes, so an encoder that leaves bytes unwritten is
covered. Whether memory is granted to the text builder is any function of the request's number and size. The
generator's output and workspace are regions of one flat memory, which makes their separation a statement about
positions. Ghost results such as `forest` are the trees behind a flat output.

Three promises hold only under a condition:

- The bounded path is a view of the unbounded stack of enclosing elements, at every step of a traversal, exactly when
  no push finds the count of omitted identifiers at its maximum (`DiagnosticPath.InViewExactlyIfCountable`); for every
  traversal at all it is a view of the stack that takes no more at that depth (`DiagnosticPath.Path.Replay`), and
  `DiagnosticPath.OverflowIsLost` shows the push that is lost.
- Writing compressed names out in full leads to the same end of a run exactly when no expanded name itself begins with
  `(` and a digit (`Profile.CompressionIsExactlyAbbreviation`); `Profile.AmbiguousReportChanges` is a family of accepted
  profiles whose report changes.
- Printing bytes as digits computes the room it reserves without wrapping exactly up to half of `SIZE_MAX`
  (`JsonText.HexRoomIsExact`), which no field of an input in memory exceeds; longer fields are outside the contract.

The generator's documentation promises the same bytes for the same Format and options, whatever came before. An encoder
that leaves bytes of its output unwritten lets earlier buffer contents show through, so the promise is proved for
Formats whose encoder stores every byte it counts (`GeneratorPlan.Thorough`): status and output are then
`GeneratorPlan.Generated(f, o)`, in which neither memory, nor positions, nor capacities appear. `Le16` is such a Format.

Two devices serve the verifier alone. A clause `P(..) == true` (or `== false`) says the same as `P(..)` (or its
negation), but is proved and used as one fact instead of conjunct by conjunct; `hide` keeps bodies of functions out of
proofs that need only their lemmas. The generator's mixing function is a field set once by its constructor, because no
property of a run but the words it draws depends on it.

## Model

| member | source | states |
|---|---|---|
| `FormatContract.ChecksAreExact` | tlv/src/format.c:73-82 | The conjunction evaluated in wrapping `size_t` arithmetic accepts exactly the descriptions whose header, value and trailer tile the element inside the input, in unbounded arithmetic |
| `FormatContract.RangeValidIsInside` | tlv/src/format.c:30-32 | The overflow-safe range test is containment of a present range |
| `FormatContract.Decode` | tlv/src/format.c:53-98 | For arbitrary callbacks: success publishes exactly a well-formed description; every failure publishes none, with every present diagnostic range inside the input; an error of the decoder keeps its identity, but control statuses, unknown values, a capacity error and an ill-formed description become CALLBACK; empty input is END at offset 0 |
| `FormatContract.TagIsBound` | tlv/src/format.c:38-50 | Which identifiers an accepted description may have: the bytes of its identifier range, none if it claims no range, or bytes of the Format's own; and what Element it then denotes |
| `FormatContract.ClippedRangesAreInside` | tlv/src/format.c:86-90 | A published diagnostic range never leaves the buffer; ranges inside it are published unchanged |
| `FormatContract.Measure` | tlv/src/format.c:100-125 | Success means the total is the exact unbounded sum of its parts, nonzero, with the Value's size kept; any other sum is CALLBACK; an error of the provider keeps its identity |
| `FormatContract.Encode` | tlv/src/format.c:127-159 | Preflight failures touch no byte and consult no encoder; a capacity failure is reported whenever the total does not fit, with the total; success stores inside the given region only and returns the measured size; an encoder's error keeps its identity |
| `FormatContract.EncodeIsExact` | tlv/src/format.c:137-158 | A successful encode writes header + value + trailer bytes as unbounded integers, within capacity; a shortage reports that same sum |
| `FormatContract.Preserve` | tlv/src/format.c:161-183 | Accepts exactly the unmodified decoded element and reproduces its original bytes; size query and shortage report the original size and write nothing |
| `Mixer.MixInjective` | tlv/src/generator.c:17-21 | The finalizer maps different 64-bit words to different words, so it is a permutation of them |
| `Mixer.XorShiftInjective` | tlv/src/generator.c:18-20 | Folding a word with its own right shift loses nothing |
| `Mixer.ScrambleInjective` | tlv/src/generator.c:18-19 | A fold followed by multiplication by an odd constant modulo 2^64 loses nothing |
| `Mixer.StartsAreDistinct` | tlv/src/generator.c:137-140 | One seed gives distinct starts to distinct case indexes, one index gives distinct starts to distinct seeds |
| `Mixer.CounterClosedForm` | tlv/src/generator.c:23-25 | The counter after n calls is start + n times the increment, modulo 2^64 |
| `Mixer.CountersDiffer` | tlv/src/generator.c:23-25 | Counters less than 2^64 calls apart differ |
| `Mixer.OutputsDoNotRepeat` | tlv/src/generator.c:23-25 | No output repeats within 2^64 consecutive calls |
| `Mixer.MixReaches` | tlv/src/generator.c:17-21 | The finalizer leaves no word out |
| `Mixer.XorShiftReaches` | tlv/src/generator.c:18-20 | Every word is some word folded with its own right shift |
| `Mixer.EveryWordIsDrawn` | tlv/src/generator.c:23-25 | For every seed and every word, some case index makes it the first word drawn |
| `Generator.WorkspaceSize` | tlv/src/generator.c:39-59 | The division-based limits decide the unbounded products; the answer is the size for one block per depth, or the first applicable error |
| `Generator.ConfigIsExact` | tlv/src/generator.c:43-57 | Each answer about a configuration has its exact condition: counts and limits given, depth at most 64, products representable, every range of sizes ordered and some candidate possible |
| `Generator.QuotientTest` | tlv/src/generator.c:46-47 | Comparing with a quotient is comparing the product |
| `Generator.Generate` | tlv/src/generator.c:123-148 | For any callbacks: success is a nonempty concatenation of elements that decode to exactly their extent and re-encode byte for byte, recursively in every constructed Value, with at most max_elements nodes; only the output and the workspace are written; at most 64 attempts per allowed element; CALLBACK only over a Format that breaks its promises, LIMIT only after every attempt was spent and only if some candidate can be turned down; over an encoder that stores every byte of its output, status and bytes are one function of Format and options, whatever memory held and however large the buffers are |
| `GeneratorPlan.CheckIsSteady` | tlv/include/tlv/generator.h:25-28 | Over such an encoder, the verdict on an element and its bytes do not depend on what output and staging block held |
| `GeneratorPlan.EveryLengthIsDrawn` | tlv/src/generator.c:27-37 | Every size of a candidate within all three limits is drawn for some words |
| `GeneratorPlan.CommonLengthsAreDrawn` | tlv/include/tlv/generator.h:67 | Both interval ends, and each of 0, 1, 127, 128, 255 and 256 between them, are drawn by one word alone, and some state of the generator draws it |
| `Generator.CheckIsFair` | tlv/src/generator.c:96-112 | An accepted element is writer-reconstructible, an abort names a Format defect, and an element the Format carries is never rejected |
| `Generator.CheckIsExact` | tlv/src/generator.c:96-112 | Accepted exactly if the element comes back whole and encodes to the same bytes again; the case aborted exactly if it is mangled, or encoding it again reports CALLBACK; rejected otherwise |
| `Generator.Produce` | tlv/src/generator.c:134-147 | The same guarantees for the run itself, once every preliminary check has passed |
| `Generator.Run.constructor` | tlv/src/generator.c:134-142 | The start of the random sequence and both budgets |
| `Generator.Run.Next` | tlv/src/generator.c:23-25 | Each call adds the increment modulo 2^64 and returns the mixed counter |
| `Generator.Run.ValueSize` | tlv/src/generator.c:27-37 | Always between the bounds; the size the next words stand for, of which one or two are used |
| `Generator.Run.Fill` | tlv/src/generator.c:94 | The staged bytes are the next words of the sequence, low byte each, and nothing else changes |
| `Generator.Run.StageRandom` | tlv/src/generator.c:93-94 | A primitive Value of permitted size, staged in its block from the words after the ones the size took |
| `Generator.Run.BlockPosition` | tlv/src/generator.c:68 | Depth d stages in block d of the workspace |
| `Generator.Run.BlocksAscend` | tlv/src/generator.c:66-68 | A deeper block never lies before a shallower one |
| `Generator.Run.Pick` | tlv/src/generator.c:74-77 | A configured candidate, drawn by one word, and the least of its own limit, the limit for all Values and the room left |
| `Generator.Run.StageValue` | tlv/src/generator.c:79-95 | A constructed Value is a stream of the next level, which stops only at its drawn number of roots or for want of elements, attempts or room; a primitive one random bytes; the budget pays for the element and everything in it; only deeper blocks are written |
| `Generator.Run.Put` | tlv/src/generator.c:96-98 | One write through the contract layer: its status and its bytes, confined to the destination |
| `Generator.Run.Propose` | tlv/src/generator.c:96-108 | The verdict is a function of Format, element and the region's earlier bytes; acceptance means the written bytes decode to exactly the proposed element over exactly their extent |
| `Generator.Run.Confirm` | tlv/src/generator.c:109-112 | Acceptance means re-encoding over the staged Value gave the same bytes; the output is not touched |
| `Generator.Run.TryElement` | tlv/src/generator.c:96-112 | The verdict of proposal and confirmation together, as `CheckIsExact` determines it; only the region and the staging block are written |
| `Generator.Run.Draw` | tlv/src/generator.c:74-95 | A drawn and staged candidate within all limits; or a rejection that restores the budget, only if its smallest size exceeds them or its children came out too short |
| `Generator.Run.Settle` | tlv/src/generator.c:96-118 | The verdict on the staged element over what the buffers held: an accepted one joins the tree, a rejected one gives the budget back, a mangled one is counted |
| `Generator.Run.Judged` | tlv/src/generator.c:96-118 | Each verdict is justified: the element is reconstructible, the Format is defective, or the candidate is excused; and it is the planned one, over blank buffers, if the encoder stores every byte |
| `Generator.Run.Attempt` | tlv/src/generator.c:66-118 | Every attempt costs one unit, conserves the element budget and writes only its own region and the deeper blocks |
| `Generator.Run.Round` | tlv/src/generator.c:66-118 | What a level accepted before an attempt survives it |
| `Generator.Run.Survives` | tlv/src/generator.c:68-96 | Output already accepted lies outside everything later attempts may write |
| `Generator.Run.Step` | tlv/src/generator.c:66-118 | One round of the loop: the level's bytes are still the wire form of its well-formed tree, the budget still counts its nodes, and the rest of the plan is the planned rest |
| `Generator.Run.Loop` | tlv/src/generator.c:66-120 | The whole level: tree, conservation and stopping reason as above, and over an encoder that stores every byte the bytes, the budgets and the random state the plan gives |
| `Generator.Run.Stream` | tlv/src/generator.c:61-121 | Conservation: spent budget equals the nodes of the emitted tree, rollbacks included; the output is the tree's wire form; the loop stops at the drawn number of roots or for want of elements, attempts or room; CALLBACK exactly if an element was mangled on this level or below |
| `Generator.Run.Case` | tlv/src/generator.c:143-147 | An empty stream is LIMIT, only after every attempt was spent; any other is the case's output |
| `Generator.MakeNode` | tlv/src/generator.c:96-114 | An accepted attempt is a well-formed node of the tree |
| `Reader.ElementsPartitionTheInput` | tlv/src/format.c:53-98 | A decode loop terminates, its elements tile the consumed prefix, it stops for what a read answers there, and a clean end is the end of the input |
| `Reader.ElementsAreRead` | tlv/src/format.c:53-98 | Each element of that loop is what a read at its offset answers |
| `Reader.Reader.constructor` | bindings/go/reader.go:21-36 | An invalid Format is latched as an error from the start |
| `Reader.Reader.Next` | bindings/go/reader.go:41-64 | One transition of the state machine: publish and advance, latch the end, pause, or latch an error at the absolute cursor; it asks for more data exactly if it found no element and neither an end nor an error is latched |
| `Reader.Reader.SetInput` | bindings/go/reader.go:88-99 | A new window is accepted exactly within its rules and limits, in machine integers that cannot overflow, and ends a pause without moving the absolute cursor; failure changes nothing |
| `Reader.CursorStays` | bindings/go/reader.go:38-64 | Whatever the Format, only a successful read moves the absolute cursor, by the element's size |
| `Reader.NextAgrees` | bindings/go/reader.go:41-64 | One read through a window gives the element the complete read has at that place |
| `Reader.CallAgrees` | bindings/go/reader.go:41-99 | Every legal call keeps window and complete input in agreement |
| `Reader.RunAgrees` | bindings/go/reader.go:41-99 | A whole run publishes a prefix of the complete read and leaves the rest of it to come |
| `Reader.PausesAreExact` | bindings/go/reader.go:58-77 | Along any legal run, a Reader waits only while the native read at its cursor asks for more data; after Next it waits exactly if that read does and neither an end nor an error is latched |
| `Reader.ChunkInvariance` | bindings/go/reader.go:41-99 | However input is windowed, paused and discarded, elements and absolute offsets equal those of one complete read, up to the cursor; end or error come with the complete read's status and offset |
| `Reader.NoErrorBeforeCleanEnd` | bindings/go/reader.go:51-63 | Input that ends cleanly never causes an error, in any windows |
| `Reader.FinalInputDecides` | bindings/go/reader.go:28-30 | Over final input Next never pauses: the next element, the end or an error |
| `Reader.NextsComplete` | bindings/go/reader.go:41-64 | From any state in step with final input, one call of Next more than there are elements left publishes exactly those elements and leaves the end or an error set |
| `Reader.EveryElementIsPublished` | bindings/go/reader.go:41-99 | After any legal run that has shown the whole input, calling Next often enough completes the log to the elements of one complete read |
| `Reader.EveryRunCanFinish` | bindings/go/reader.go:88-99 | After any legal run over non-final input without an error, the whole rest may be shown as the final window, and Next called often enough then completes the log |
| `Writer.Writer.constructor` | bindings/go/writer.go:38-39 | An empty growing Writer |
| `Writer.Writer.Buffer` | bindings/go/writer.go:41-46 | An empty Writer with the buffer's whole length as capacity |
| `Writer.MeasureForetells` | bindings/go/writer.go:51-101 | A successful append leaves its level, what was there before still in front, exactly as many bytes longer as Measure answers |
| `Writer.Writer.AppendElement` | bindings/go/writer.go:63-101 | In terms of the measured size, the level and the capacity, plain and closing alike: overflow of the level first, then CapacityError with exact requirement and capacity if and only if the root level is fixed and too small, then the encoder's own error; otherwise the encoding is published to the enclosing level at once; failure changes nothing |
| `Writer.Writer.WriteElement` | bindings/go/writer.go:105-107 | Adds one element to the innermost open parent or the root of the forest; a root element that does not fit, and only such a one, is answered with CapacityError; failure changes nothing |
| `Writer.Writer.Begin` | bindings/go/writer.go:117-126 | Opens an empty parent; failure changes nothing |
| `Writer.Writer.Value` | bindings/go/writer.go:130-140 | Adds raw bytes to the innermost open parent; failure changes nothing |
| `Writer.Writer.End` | bindings/go/writer.go:145-156 | The innermost parent, with all it holds, becomes one item of the enclosing level; an outermost parent that does not fit, and only such a one, is answered with CapacityError; failure keeps it open and unchanged |
| `Writer.Writer.Finish` | bindings/go/writer.go:159-164 | Succeeds exactly when every parent is closed, and then output is the recursive encoding of the forest described |
| `Writer.Writer.SetBuffer` | bindings/go/writer.go:176-187 | Keeps output and open parents and fixes the capacity; a buffer too small changes nothing |
| `Writer.CapacityRetry` | bindings/go/writer.go:78-82 | The reported requirement is exact: any smaller buffer fails the same way, any buffer of at least that size gives what an unbounded Writer would hold |
| `NativeCalls.Read` | bindings/go/internal/capi/bridge.c:313-330 | The native read is the contract layer's decode, with truncation of non-final input turned into a pause |
| `Streams.JoinedStreamReadsBack` | bindings/go/reader.go:41-64 | Complete elements put one behind another read back as themselves, each at its offset, with a clean end |
| `RoundTrip.TextIsJoined` | bindings/go/writer.go:63-101 | A Writer's root output is its root elements' encodings, one behind another |
| `RoundTrip.WrittenElementsReadBack` | bindings/go/writer.go:63-187 | A Reader over a Writer's output, in any windows, publishes the root elements written, in order and place, without error |
| `RoundTrip.WrittenParentsReadBack` | bindings/go/writer.go:108-156 | The Value of every parent written without raw bytes, at every depth, reads back as the elements written into it, in order and place, with a clean end |
| `RoundTrip.FinishedWriterReadsBack` | bindings/go/writer.go:63-187 | Both for any Writer whose parents are all closed, from its own invariant: its output in any windows, and the Values of its parents |
| `RoundTrip.GeneratedStreamReadsBack` | tlv/src/generator.c:61-121 | A complete read of a generated stream yields exactly the roots of its tree, at their offsets, and ends cleanly, and so does a read of the Value of every constructed element, at every depth |
| `RoundTrip.Le16IsInverse` | examples/tlv/src/custom_format.c:39-76 | The hand-written Format meets every hypothesis of the Reader and Writer results |
| `RoundTrip.Le16IsNotDefective` | examples/tlv/src/custom_format.c:39-76 | Its round trips lose nothing, so generation over it never reports CALLBACK |
| `RoundTrip.Le16IsThorough` | examples/tlv/src/custom_format.c:39-76 | Its encoder stores every byte, so what is generated over it is one function of the options |
| `RoundTrip.Le16CasesSucceed` | examples/tlv/src/custom_format.c:39-76 | With one-byte identifiers, Values that fit and parents that may be empty, generation over it can end neither in CALLBACK nor in LIMIT |
| `Le16.Representable` | tlv/src/formats/compose.c:118-148 | Exactly the elements with a one-byte identifier and at most 65535 Value bytes are measured, as 3 bytes more than the Value |
| `Le16.EncodesToHeaderAndValue` | tlv/src/formats/compose.c:150-174 | Encoding overwrites any buffer content with identifier, little-endian length and Value |
| `Le16.WritesOneWire` | tlv/src/formats/compose.c:150-174 | Plain and closing encodings of an element are the same bytes |
| `Le16.ReadsItsEncoding` | tlv/src/formats/compose.c:42-112 | Decoding an encoding gives the element back and consumes all of it |
| `Le16.IsPrefixStable` | tlv/src/formats/compose.c:42-112 | More input behind a window never changes an answer that was not a pause |
| `Utf8.Stream.FinishCodepoint` | tlv/src/utf8_internal.c:13-31 | Accepts exactly the assembled values that are scalar and not overlong for their lead byte |
| `Utf8.Stream.Lead` | tlv/src/utf8_internal.c:36-54 | One byte outside a sequence, as the bytewise machine takes it |
| `Utf8.Stream.Collect` | tlv/src/utf8_internal.c:56-67 | The inner loop consumes continuation bytes as the bytewise machine would one at a time |
| `Utf8.Stream.Update` | tlv/src/utf8_internal.c:33-71 | The nested loops compute one run of the bytewise machine |
| `Utf8.Stream.Finish` | tlv/src/utf8_internal.c:73-75 | Succeeds exactly outside a sequence |
| `Utf8.Validate` | tlv/src/utf8_internal.c:79-86 | One-shot validation accepts exactly the language below |
| `Utf8.RunSplits` | tlv/src/utf8_internal.c:33-71 | Running a concatenation is running its parts in turn |
| `Utf8.ChunksAreOneRun` | tlv/src/utf8_internal.c:33-71 | The pending state after any split depends on the concatenation only |
| `Utf8.ValidateChunks` | tlv/src/utf8_internal.c:33-86 | For every split into chunks, update and finish succeed exactly when one-shot validation does |
| `Utf8.EncodingsAreAccepted` | tlv/src/utf8_internal.c:33-75 | Every concatenation of shortest-form encodings of scalar values is accepted |
| `Utf8.AcceptedAreEncodings` | tlv/src/utf8_internal.c:33-75 | Everything accepted is such a concatenation |
| `Utf8.AcceptsExactlyUtf8` | tlv/src/utf8_internal.c:77-86 | The accepted language is exactly UTF-8 of RFC 3629 |
| `Utf8.DecompositionIsUnique` | tlv/src/utf8_internal.c:77-86 | A byte string encodes at most one sequence of scalar values |
| `Utf8.AssembledEncodes` | tlv/src/utf8_internal.c:13-31 | The bytes of an accepted sequence are the shortest encoding of the value assembled from them |
| `Utf8.EncodeAssembles` | tlv/src/utf8_internal.c:13-31 | Assembling an encoding gives the scalar value back, within the length announced by its lead byte |
| `CallGraph.Violations` | scripts/check_query_contracts.py:19-39 | `done` is exactly what clean call chains reach; every reported chain is real and about a call of its own; every cycle that can be reached contains a call reported as recursive, every forbidden call or root that can be reached is reported; there are recursion errors, and errors at all, exactly when there are genuine ones |
| `CallGraph.Run` | scripts/check_query_contracts.py:19-39 | The same for any set of forbidden names |
| `CallGraph.Audit.Visit` | scripts/check_query_contracts.py:22-35 | A visit leaves the active path as it was; it reports a forbidden name, and an active one, with its whole chain, and finishes any other; each further error is about a call of a name it finished |
| `CallGraph.Audit.VisitAll` | scripts/check_query_contracts.py:32-33 | Every callee is finished, forbidden and named, or active and reported as recursive, each call at most once |
| `CallGraph.Audit.VisitRoot` | scripts/check_query_contracts.py:37-38 | The roots visited so far are dealt with, and no error about a root is about another |
| `CallGraph.Audit.Enter` | scripts/check_query_contracts.py:31 | The active path stays a clean chain from a root without repetition |
| `CallGraph.Audit.Finish` | scripts/check_query_contracts.py:34-35 | A finished name is reachable and all it calls is accounted for |
| `CallGraph.Audit.Report` | scripts/check_query_contracts.py:23-28 | Every error appended is a genuine violation |
| `CallGraph.Audit.Complete` | scripts/check_query_contracts.py:37-39 | At the end the finished names are exactly the reachable ones |
| `CallGraph.StaysInside` | scripts/check_query_contracts.py:29-35 | No clean chain leaves a closed set of finished names |
| `CallGraph.Descends` | scripts/check_query_contracts.py:32-35 | A chain of calls none of which is reported as recursive leads strictly backwards in the finishing order |
| `CallGraph.NoCycle` | scripts/check_query_contracts.py:26-35 | Hence no such chain is a cycle |
| `CallGraph.CyclesAreBroken` | scripts/check_query_contracts.py:26-35 | Every cycle of reachable names contains a call reported as recursive |
| `CallGraph.CyclesAreReported` | scripts/check_query_contracts.py:26-35 | So there is a recursion error whenever there could be one |
| `CallGraph.AllocationsAreReported` | scripts/check_query_contracts.py:23-25 | A forbidden name that can be reached leaves an allocation error |
| `CallGraph.Audit.NothingOverlooked` | scripts/check_query_contracts.py:19-39 | A finished audit has errors of a kind exactly when there are genuine ones |
| `Profile.Parser.OneLine` | scripts/callgrind_report.py:91-171 | Each line changes the parser's variables as one step of the line machine, or is rejected |
| `Profile.Parser.CostLine` | scripts/callgrind_report.py:100-116 | A cost line is counted once for the current function, or not at all behind a call |
| `Profile.Parser.HeaderLine` | scripts/callgrind_report.py:137-171 | Declarations are accepted once, in time and well formed |
| `Profile.ParseProfile` | scripts/callgrind_report.py:34-188 | The loop and its final checks compute the run of the line machine, rejecting an unfinished last line |
| `ProfileMeaning.ReportIsExact` | scripts/callgrind_report.py:34-188 | Read off the lines, without the parser's state: a profile is accepted exactly if it is complete, every line may stand where it does, and totals and summary bear out the costs; each function named gets exactly the instructions of the cost lines that follow its name line and no call, and the total is the summary's if there is one |
| `ProfileMeaning.PrefixMeans` | scripts/callgrind_report.py:91-171 | After any number of lines: they are accepted exactly if each is permitted, and every variable of the parser is what they say |
| `ProfileMeaning.AnyStep` | scripts/callgrind_report.py:91-171 | One line more: permitted exactly if the parser accepts it, and the reading is kept |
| `ProfileMeaning.ConclusionMeans` | scripts/callgrind_report.py:173-188 | The checks at the end of the file and the report, in terms of the lines |
| `ProfileMeaning.ResolvesToMeaning` | scripts/callgrind_report.py:73-89 | A name resolves exactly if it is permitted, to its definition nearest before it in its group or to itself |
| `ProfileMeaning.CounterValues` | scripts/callgrind_report.py:66-71 | Counters behind the position columns are accepted exactly if all are numbers and no more than the events; missing ones are zero |
| `ProfileMeaning.PositionsAreRanked` | scripts/callgrind_report.py:148-152 | Position columns are accepted exactly if there are any and they come in their order |
| `Profile.ReadsCompressed` | scripts/callgrind_report.py:22 | A number in parentheses, alone or before blanks and a name, reads as a compressed name |
| `Profile.CompressedIsSpelled` | scripts/callgrind_report.py:22 | Only text so spelled does |
| `Profile.EventCosts` | scripts/callgrind_report.py:66-71 | Accepted counters are one number for each declared event |
| `Profile.SumUpdate` | scripts/callgrind_report.py:114-115 | Crediting one function adds exactly that cost to the sum over all functions |
| `Profile.RunBalances` | scripts/callgrind_report.py:91-116 | On every run the functions' costs sum to the collected Ir |
| `Profile.CostsAreConserved` | scripts/callgrind_report.py:173-188 | In an accepted report the functions' costs sum to the self instructions, and self plus a nonnegative unattributed rest is the total |
| `Profile.NothingAfterTotals` | scripts/callgrind_report.py:95-96 | Behind the totals line only ignored lines are accepted, and they change nothing |
| `Profile.NoTotalsYet` | scripts/callgrind_report.py:158-161 | Only a totals line records totals |
| `Profile.CutsAreRejected` | scripts/callgrind_report.py:43-44 | A cut of an accepted profile is accepted exactly when it falls between lines and behind the totals line, however an unfinished line would read, and then reports the same |
| `Profile.CallEdgesAreNotCounted` | scripts/callgrind_report.py:110-133 | Removing every call association with its cost line leaves the report unchanged |
| `Profile.EdgesDoNotMatter` | scripts/callgrind_report.py:110-133 | The same on every run from any state |
| `Profile.CompressionIsExactlyAbbreviation` | scripts/callgrind_report.py:73-89 | The written-out lines of a profile lead to the same end exactly when no resolved name looks compressed itself |
| `Profile.WritingOutIsExact` | scripts/callgrind_report.py:73-89 | The same on every run from any state |
| `Profile.CompressionIsOnlyAbbreviation` | scripts/callgrind_report.py:73-89 | Then the report is unchanged |
| `Profile.AmbiguousReportChanges` | scripts/callgrind_report.py:76-89 | An accepted profile whose one name reads as compressed once written out: it is accepted still, and reports another function |
| `Profile.TableGrows` | scripts/callgrind_report.py:80-83 | No run ever drops a defined name |
| `Profile.WritingOutKeepsRuns` | scripts/callgrind_report.py:73-89 | The same on every run, for any table of names |
| `Profile.AmbiguousDefinition` | scripts/callgrind_report.py:76-89 | A definition whose name reads as compressed stands for another function once written out |
| `JsonText.Builder.Reserve` | bindings/wasm/src/opentlv_wasm.c:84-103 | Asks for memory exactly if the room does not suffice, for at least 256 characters and twice the capacity where that does not wrap; fails exactly if that memory is refused or a size_t cannot count the text; the text is kept and a failure latched |
| `JsonText.Builder.Append` | bindings/wasm/src/opentlv_wasm.c:105-111 | Appends exactly the text, terminated, or nothing after a failure; it fails only if memory is refused or a size_t cannot count the text |
| `JsonText.Builder.AppendHex` | bindings/wasm/src/opentlv_wasm.c:123-133 | Appends two uppercase digits for each byte, in bounds after one reservation |
| `JsonText.HexRoomIsExact` | bindings/wasm/src/opentlv_wasm.c:126 | The reserved room is twice the length exactly up to half of SIZE_MAX; beyond, the product wraps to less |
| `JsonText.UnhexInvertsHex` | bindings/wasm/src/opentlv_wasm.c:123-133 | The digits give the bytes back |
| `JsonText.HexPairs` | bindings/wasm/src/opentlv_wasm.c:124-131 | Two upper-case digits for each byte, in order |
| `JsonText.Builder.AppendJsonString` | bindings/wasm/src/opentlv_wasm.c:135-149 | Appends the quoted, escaped literal |
| `JsonText.Builder.AppendParts` | bindings/wasm/src/opentlv_wasm.c:105-149 | Consecutive appends of text, digits and literals add the concatenation of what each adds |
| `JsonText.UnescapeInvertsQuoting` | bindings/wasm/src/opentlv_wasm.c:135-149 | A reader of JSON string literals recovers the text and stops right behind the closing quote |
| `JsonText.PlainTextIsKept` | bindings/wasm/src/opentlv_wasm.c:137-147 | Text without quotation marks, backslashes and control characters stands for itself |
| `JsonText.NoControlIsLeft` | bindings/wasm/src/opentlv_wasm.c:138-144 | No control character is left in a literal |
| `JsonText.HexRoundTrip` | bindings/wasm/src/opentlv_wasm.c:124-131 | Digit and value are inverse |
| `Json.ParseInvertsSpelling` | bindings/wasm/src/opentlv_wasm.c:113-156 | A reader of JSON values recovers any printed value and stops right behind it |
| `JsonElement.SpanSpelled` | bindings/wasm/src/opentlv_wasm.c:184-191 | A range's text is an object member with its absolute offset and its size |
| `JsonElement.ElementSpelled` | bindings/wasm/src/opentlv_wasm.c:214-256 | What an element's arrival appends, with its children and closers behind it, spells one JSON object with all of its members |
| `JsonElement.PartsFit` | bindings/wasm/src/opentlv_wasm.c:214-256 | Nothing an element inside its input appends is too long to be appended |
| `JsonElement.ContentSaysWhich` | bindings/wasm/src/opentlv_wasm.c:247-256 | An element shows its children exactly if it is constructed and not empty, and its Value otherwise |
| `JsonTree.CloseOne` | bindings/wasm/src/opentlv_wasm.c:151-156 | Closing the innermost object is the text of the forest with one level fewer open |
| `JsonTree.OpenOne` | bindings/wasm/src/opentlv_wasm.c:211-257 | Separator and object text are the text of the forest grown by one object |
| `JsonTree.FlattenInsert` | bindings/wasm/src/opentlv_wasm.c:64-66 | Inserting on the rightmost spine appends in preorder |
| `JsonEmitter.BuildIsPreorder` | bindings/wasm/src/opentlv_wasm.c:64-66 | The forest built from the events reads back as the events, in preorder |
| `JsonEmitter.TracksInsert` | bindings/wasm/src/opentlv_wasm.c:211-257 | Open count, sibling counters and nesting flags keep describing the rightmost spine, in bounds |
| `JsonEmitter.Emitter.CloseElements` | bindings/wasm/src/opentlv_wasm.c:151-156 | Closes down to the given depth, the text remaining that of the forest with fewer levels open |
| `JsonEmitter.Emitter.OpenObject` | bindings/wasm/src/opentlv_wasm.c:211-257 | The new object joins the forest at its depth, separated from its siblings |
| `JsonEmitter.Emitter.Emit` | bindings/wasm/src/opentlv_wasm.c:193-259 | For any depth an event may have, text and arrays stay in step with the forest; nesting beyond capacity stops without a change |
| `JsonEmitter.VisitArrivals` | bindings/wasm/src/opentlv_wasm.c:193-259 | For every prefix of a preorder sequence of appends, the text after the final close is the recursive printer on its forest |
| `JsonEmitter.Visit` | bindings/wasm/src/opentlv_wasm.c:193-259 | The same for a preorder sequence of elements and what each of them appends; it stops early only at an element nested too deeply or when memory runs out, which it does only if memory is refused or a size_t cannot count the text |
| `JsonReading.ElementReadsBack` | bindings/wasm/src/opentlv_wasm.c:214-256 | A reader recovers from an element's JSON its depth, offset, tag, sizes, ranges, name, and its Value or children |
| `JsonReading.PrintSpells` | bindings/wasm/src/opentlv_wasm.c:193-259 | The recursive printer on a forest of elements spells the array of their JSON values |
| `JsonReading.LevelReadsBack` | bindings/wasm/src/opentlv_wasm.c:193-259 | A reader recovers a whole forest, each element on the level of its depth |
| `JsonReading.ShowsExactly` | bindings/wasm/src/opentlv_wasm.c:214-256 | What is recovered of each element visited, field by field |
| `JsonReading.VisitReadsBack` | bindings/wasm/src/opentlv_wasm.c:193-259 | The array a visit leaves is JSON whatever follows it, and a reader recovers from it every element visited, in order, with all it shows, nested as visited |
| `NodeHandles.Document.PushNode` | bindings/lua/src/document.c:48-67 | A fresh handle joins the front of a consistent doubly linked list |
| `NodeHandles.Document.Collect` | bindings/lua/src/document.c:107-121 | A linked handle leaves the list at its place, others keep order and nodes; any other handle is only cleared |
| `NodeHandles.Document.Climb` | bindings/lua/src/document.c:141-146 | The upward loop finds the root exactly when the node lies in its subtree, and terminates |
| `NodeHandles.AtOrBelowIsAWay` | bindings/lua/src/document.c:141-146 | A node lies in a subtree exactly if some chain of parents leads from it to the root |
| `NodeHandles.Document.DoomedIsExact` | bindings/lua/src/document.c:136-148 | An edit dooms exactly the handles with such a chain, of at least one step if the root itself lives on |
| `NodeHandles.Document.Mark` | bindings/lua/src/document.c:136-148 | Exactly the handles in the subtree, or strictly below it, are flagged |
| `NodeHandles.Document.InvalidateMarked` | bindings/lua/src/document.c:150-153 | Exactly the flagged handles are cleared |
| `NodeHandles.Document.Erase` | bindings/lua/src/document.c:286-299 | Success clears exactly the handles in the subtree, no remaining handle names a freed node; during a query nothing changes |
| `NodeHandles.Document.SetValue` | bindings/lua/src/document.c:264-284 | Success clears exactly the handles strictly below the node; every failure leaves all handles usable |
| `NodeHandles.Document.Insert` | bindings/lua/src/document.c:302-336 | The prepared handle is linked only on success, every other handle is kept |
| `NodeHandles.Document.Close` | bindings/lua/src/document.c:123-132 | Closing clears every handle, except during a query |
| `DocumentWalk.Query` | bindings/lua/src/document.c:231-262 | The matcher sees every node exactly once, in preorder, at its true depth, and exactly its selections are returned, with LIMIT only beyond INT_MAX of them |
| `DocumentWalk.DepthIsAncestry` | bindings/lua/src/document.c:241-260 | A visit's depth is the number of its node's ancestors |
| `DocumentWalk.ChildIsNext` | bindings/lua/src/document.c:249-254 | A node's first child is visited right after it |
| `DocumentWalk.SiblingFollows` | bindings/lua/src/document.c:255-259 | A node's next sibling is visited as soon as nothing deeper is left |
| `DocumentWalk.SelectedExactly` | bindings/lua/src/document.c:244-248 | A node is returned exactly if the matcher selected it on its visit |
| `DocumentWalk.VisitedOnce` | bindings/lua/src/document.c:241-260 | However the pointers are set, a document they show names no node twice |
| `DocumentWalk.Determined` | bindings/lua/src/document.c:241-260 | The pointers determine the forest they show |
| `DocumentWalk.Apart` | bindings/lua/src/document.c:241-260 | Forests below different parents share no node |
| `DocumentWalk.Climb` | bindings/lua/src/document.c:255-259 | Climbing past exhausted levels ends at the next node still owed, with its depth, or at the end |
| `DocumentWalk.Advance` | bindings/lua/src/document.c:249-259 | One move keeps the nodes still to be visited and their order |
| `DiagnosticPath.Path.Push` | tlv/src/diagnostic.c:104-113 | A path that is a view of a stack, cut to its outermost 32 identifiers with the rest counted, is a view of the stack one deeper, or of the same stack once no more can be counted |
| `DiagnosticPath.Path.Pop` | tlv/src/diagnostic.c:115-121 | A path that is a view of a stack becomes a view of its parent's |
| `DiagnosticPath.Path.Replay` | tlv/src/diagnostic.c:98-121 | After any sequence of pushes and pops the path is a view of the stack they describe |
| `DiagnosticPath.TraversalsAreExact` | tlv/src/diagnostic.c:104-121 | That is the unbounded stack unless a push finds the count of omitted identifiers at its maximum |
| `DiagnosticPath.InViewExactlyIfCountable` | tlv/src/diagnostic.c:104-121 | All along a traversal the path is a view of the unbounded stack if and only if no push finds the count of omitted identifiers at its maximum |
| `DiagnosticPath.OverflowIsLost` | tlv/src/diagnostic.c:108 | Such a push is lost, and the pop that matches it loses its place |
| `DiagnosticPath.Path.Emit` | tlv/src/diagnostic.c:140-153 | Text is stored only while a terminator still fits; the length counts in any case |
| `DiagnosticPath.Path.EmitHex` | tlv/src/diagnostic.c:133-139 | The same for pairs of digits |
| `DiagnosticPath.Path.ToString` | tlv/src/diagnostic.c:123-161 | The reported length is the same for every capacity; success exactly if text and terminator fit, and then both are stored; a shortage leaves an empty string |
| `DiagnosticPath.TextReadsBack` | tlv/src/diagnostic.c:125-146 | A printed path parses back to its identifiers |
| `DiagnosticPath.WholeTextReadsBack` | tlv/src/diagnostic.c:125-153 | Every printed path, with or without omissions, parses back to its identifiers and whether deeper levels are left out |
| `Endian.ReadUint` | tlv/src/endian.c:58-72 | The value of the bytes in the given order, without loss in the 64-bit accumulator; the order in which errors win |
| `Endian.WriteUint` | tlv/src/endian.c:74-87 | Succeeds exactly if the value is below 256^width, and then the bytes denote the value; failure writes nothing |
| `Endian.MeaningIsInjective` | tlv/src/endian.c:58-87 | Different byte strings of one width denote different values: reading and writing are inverse |
| `Endian.FirstByteCounts` | tlv/src/endian.c:58-87 | The first byte counts most in one order and least in the other |
| `Endian.FixedFormsAgree` | tlv/src/endian.c:16-32 | The fixed-width forms read what the general reader reads |
| `Endian.FixedWritesAgree` | tlv/src/endian.c:34-56 | The bytes of the fixed-width write forms denote the value in their order |
| `Endian.WriteU16BE` | tlv/src/endian.c:34-37 | Two bytes denote the value, the others are unchanged |
| `Endian.WriteU16LE` | tlv/src/endian.c:39-42 | Two bytes denote the value, the others are unchanged |
| `Endian.WriteU32BE` | tlv/src/endian.c:44-49 | Four bytes denote the value, the others are unchanged |
| `Endian.WriteU32LE` | tlv/src/endian.c:51-56 | Four bytes denote the value, the others are unchanged |
| `Decimals.ParseMagnitude` | bindings/lua/src/codec.c:70-87 | Accepts exactly digit strings, after an optional sign, of value at most the limit, and no step leaves 64 bits |
| `Decimals.ParseUnsigned` | bindings/lua/src/codec.c:90-95 | Accepts exactly unsigned decimal text up to the maximum and returns its value |
| `Decimals.ParseSigned` | bindings/lua/src/codec.c:97-109 | Accepts exactly signed decimal text within the bounds and returns its value, the smallest int64 included, without overflow |
| `Decimals.BoundTest` | bindings/lua/src/codec.c:80 | The comparison made before multiplying is the comparison after it |
| `Decimals.DecimalDenotes` | bindings/lua/src/codec.c:125-129 | Decimal text denotes the number it was printed from |
| `Decimals.SignedRoundTrip` | bindings/lua/src/codec.c:97-109 | The decimal text of every int64 parses back to it |

## Left out

- NULL pointers for required arguments and their NULL_ARG answers; an absent identifier is kept apart from an empty one.
- Callbacks with state of their own: a Format's callbacks are functions of their arguments.
- FormatContract.Encode: says nothing about the destination region after the encoder itself failed, because a failing callback may have stored anything there; everything outside the region is unchanged.
- Generator.Generate: states reproducible bytes for encoders that store every byte of their output only, because any other makes the output depend on the buffers' earlier content.
- The C Reader, Query compiler and execution, Schema, the Document engine, BER, DER and CER: the native calls the bindings make are functions of a Format here, and an edit's effect on the document tree is an argument.
- `resolve`, LTV order, lengths covering the identifier, and trailers in the composed Format; the hand-written Format uses none of them.
- Error detail of native reads and writes in the Go binding beyond status and offset.
- Storage sharing between Go slices, such as a caller's buffer read while a Writer uses it.
- The order of callees and roots in the audit: every order is covered, the sorted one among them.
- Cutting a profile's text into lines and fields, and the regular expressions for numbers and positions; blanks before a compressed name's definition are spaces and tabs only.
- EMV annotations, the library's own decode of each event and the padding and error objects around the browser output.
- JSON beyond what the emitter needs: the reader takes compact texts of strings, natural numbers, truth values, arrays and objects.
- What a nested element's Value held: the browser output shows its children and its length instead.
- `Decimals.Decimal`: stands for the C library's decimal printing, which is not part of this model.
- Lua's own numbers, stack, registry and finalizer order; only the decimal string path is modelled.
- Location records (`tlv_location_set`, `tlv_location_translate`) and the enum-to-text tables: settled by reading one branch each.
- `DiagnosticPath.Path.ToString`: does not model a wrap-around of the length itself, which would need identifiers of nearly SIZE_MAX bytes.
- The 64-bit fixed forms, which only call the general ones.
- What the UTF-8 validator's state holds after an error; its users discard it.
