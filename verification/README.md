# Verified models of the T0 compiler, the JSON library and the agent loop

The project models three parts of the repository and proves what they are for.

**The T0 compiler** (`bearssl/T0`). Words are built from control-flow operations, analysed for stack
use, laid out as bytes with variable-length jumps, and executed by an interpreter that the compiler
writes into its output. The chain of results ends in `Compiler.EndToEnd`: whatever
`Compiler.Compile` produces for an accepted entry point, the emitted interpreter never leaves the code
block or either stack, and returns with the announced change of height, on stacks that have the room
that the analysis asked for, and on the data stack as much again as one native word can add to it.

- `Codec7E`, `CExpr`: the 7E operand format, its readers, and operands that are C expressions.
- `JumpLayout`: placement and jump relaxation, over plain layouts and over mutable elements.
- `Opcodes`, `WordDraft`, `WordBuilding`, `Gathering`, `Linker`: from control-flow operations to the code
  block.
- `FlowCert`, `FlowWalk`, `FlowAnalysis`, `FlowSoundness`, `FlowBounds`: the analysis, as a method that
  finds the least certificate, the order in which it visits opcodes, and what a certificate says about
  runs.
- `Machine`, `Processor`: execution of opcodes as a relation, and the compile-time processor that
  implements it.
- `Bytecode`, `Simulation`, `Correctness`, `Compiler`: the emitted interpreter, the simulation, and the
  composition; `Example` follows one small word all the way.

**The JSON library** (`tinyjson.h`). `Json` has parser and printer as functions, `JsonText` the
imperative versions over a cursor and a growing buffer, `JsonRoundTrip`, `JsonPrefix` and `JsonGlue`
what holds of them, `JsonTree` the doubly linked heap tree with its ownership rules, and `JsonBuild` the
parser as it builds such trees.

**The agent loop** (`main.c`). `Chunked` decodes chunked bodies, `Stream` and `StreamMachine`
reassemble responses, `History` and `Compaction` edit the message list, `Session` is the file, and
`Agent` runs chat turns and whole sessions. Responses, tool outputs, interrupts and user input are
arbitrary; how many bytes a read returns is arbitrary; file operations succeed.

Numbers are unbounded integers; where the source's widths matter (shifts and conversions of the 7E
code, the 16-bit address table, packed return addresses, `strtol`) the reduction is written out.

## What turned out not to hold

Each of these is stated with the condition under which the code does what it should, and proved to fail
outside it.

- The five-byte operand macro has no continuation bit for values that are not negative; an expression
  operand decodes if and only if it needs at most four bytes or is negative (`CExpr.OperandDecodes`).
- `Word.MaxDataStack` takes the minimum of 0 and the net effect, so the bound reported for a native word
  that leaves more than it takes, such as `dup`, is too small. What has to be added to the bounds of its
  callers is exactly that growth (`FlowBounds.ReportedBoundExact`, with `FlowBounds.CounterExample`).
- In one-byte mode the number of locals is written as one byte but read as an operand; both agree if
  and only if it is below 128 (`Simulation.LocalsReadBack`).
- `AnalyseFlow` has places for as many jump targets as there are opcodes, and may store a target more
  than once. Accepted code has a walk with no more targets than that, an overrun means that there was
  one more (`FlowAnalysis.FlowAnalyser.AnalyseFlow`), and code that has a certificate overruns exactly
  when its walk does not end that way (`FlowWalk.OverrunExact`). Every reached cycle
  of unconditional jumps overruns, whatever else is right about the code (`FlowWalk.CycleOverruns`), and
  `: x begin again ;` does (`FlowAnalysis.AnalyseSelfJump`). The original stops with an index exception
  there.
- The generator does not check that entry addresses fit the 16-bit table, nor that return addresses and
  numbers of locals fit their half of a word; `Simulation.Faithful` asks for it, together with the number
  of locals and expression operands above. An entry is found again if and only if its address is below
  65536, and a return finds its caller if and only if both numbers are (`Simulation.EntryReadsBack`,
  `Bytecode.FrameReadsBack`). No word behind one of 65535 or more opcodes is found again
  (`Simulation.FarEntryLost`).
- A message appended to a session file arrives if and only if there is nothing but space behind the last
  line feed of the file; any unfinished line swallows it (`Session.AppendExact`).
- A CRLF after chunk data of which only one byte is read leaves a line feed ahead of the next size
  line, which takes one of the 31 places of the line buffer. The size line is taken whole if and only if
  line feed and digits are at most 29 (`Chunked.SizeLineExact`); with one more, the line feed behind it
  becomes the first byte of the data (`Chunked.GarbledChunk`).
- `cJSON_Delete` frees the string of a reference although it is shared, so deleting a reference and the
  node it refers to frees nothing twice if and only if that node has no string
  (`JsonTree.ReferenceTwice`). The two references of the program are to lists, which have none.

## Model

| member | source | states |
|---|---|---|
| Codec7E.UnsignedRoundTrip | bearssl/T0/T0Comp.cs:1699-1713 | whatever surrounds it, an encoded 32-bit word is read back exactly by the emitted unsigned parser, which consumes all of at most five bytes |
| Codec7E.SignedRoundTrip | bearssl/T0/T0Comp.cs:1715-1737 | the same for signed values and the sign-extending parser |
| Codec7E.FixedWidthRoundTrip | bearssl/T0/T0Comp.cs:1715-1737 | an encoding padded to any width that the value fits is read back too |
| Codec7E.UnsignedShortest | bearssl/T0/CodeElement.cs:59-75 | no byte sequence that the parser maps to a value is shorter than its encoding |
| Codec7E.SignedShortest | bearssl/T0/CodeElement.cs:77-99 | the same for signed values |
| Codec7E.BlobWriter.Encode7EUnsigned | bearssl/T0/CodeElement.cs:59-75 | the shift loops append exactly the encoding and return its length |
| Codec7E.BlobWriter.Encode7ESigned | bearssl/T0/CodeElement.cs:77-99 | the shift loops, which differ for negative values, append exactly the signed encoding |
| Codec7E.BlobWriter.EncodeOneByte | bearssl/T0/CodeElement.cs:49-57 | one byte is appended for values up to 255; larger ones fail and append nothing |
| Codec7E.Parse7ESigned | bearssl/T0/T0Comp.cs:1715-1737 | the C loop computes the function that the round trips are about |
| CExpr.GetMaxBitLength | bearssl/T0/TPointerExpr.cs:62-79 | below the cap of 32, every value of the range fits in the computed number of bits; and one end of the range needs that many |
| CExpr.BitLength | bearssl/T0/TPointerExpr.cs:81-96 | the two shift loops compute the least two's complement length |
| CExpr.RangeBitsSuffice | bearssl/T0/TPointerExpr.cs:62-79 | the same for a single value, as the width of an operand relies on it |
| CExpr.MacroIsEncoding | bearssl/T0/T0Comp.cs:1739-1745 | up to four bytes, the T0_INTn macros expand to the encoding of the value |
| CExpr.OperandDecodes | bearssl/T0/CodeElementUIntExpr.cs:50-65 | a fixed-width operand decodes to its value and is consumed whole if and only if it has at most four bytes or is negative |
| JumpLayout.PassMonotone | bearssl/T0/CodeElementJump.cs:52-62 | longer elements never make any element of the next pass shorter |
| JumpLayout.SameTotalSameLayout | bearssl/T0/T0Comp.cs:1659-1679 | if no length shrank and the total did not change, no length changed: the loop's stop test is enough |
| JumpLayout.ComputeAddresses | bearssl/T0/T0Comp.cs:1659-1679 | the loop ends; the addresses are those of a layout in which every element has just the length its encoding needs there, and no such layout has any shorter element |
| JumpLayout.EncodeAll | bearssl/T0/T0Comp.cs:1786-1794 | the emission loop writes the concatenation of all encodings, and fails only for an opcode number over 255 in one-byte mode |
| JumpLayout.CodeElement.GetLength | bearssl/T0/CodeElementJump.cs:52-62 | one byte for a jump whose target has no address yet, else the length of the displacement from the end of the element |
| JumpLayout.CodeElement.Encode | bearssl/T0/CodeElementJump.cs:80-96 | opcode and displacement are appended; a jump without addresses fails |
| JumpLayout.EmitPlaces | bearssl/T0/T0Comp.cs:1668-1673 | in the code block each element occupies exactly the bytes from its address to the next one |
| JumpLayout.ElementDecodes | bearssl/T0/CodeElementJump.cs:69-96 | reading an operand stops at the next element, and a jump's displacement leads from there exactly to the address of its target |
| WordBuilding.BuildWord | bearssl/T0/WordBuilder.cs:72-384 | any sequence of operations that does not fail gives code with all jumps resolved and inside, existing locals only and no way off its end, made of the opcodes the operations added, in order; if every cs-pick stays on the live part of the control-flow stack, it succeeds exactly when each operation can be applied and nothing is left on that stack, with the code of the resulting draft |
| WordDraft.NestedBuilds | bearssl/T0/kern.t0:10-12 | properly nested if, else, then, begin, until, while and repeat can always be applied, leave the control-flow stack as it was, and add the structured code, in which every jump spans just the parts it has to |
| WordDraft.NestedWord | bearssl/T0/WordBuilder.cs:72-384 | so a word whose operations are properly nested builds, to that code |
| WordBuilding.WordBuilder.Then | bearssl/T0/WordBuilder.cs:338-343 | succeeds exactly when the top of the control-flow stack is the origin of a jump that is still open, and resolves that jump to the current end of the code |
| WordBuilding.WordBuilder.Again | bearssl/T0/WordBuilder.cs:358-384 | succeeds exactly when the top of the control-flow stack is a destination, and adds a jump back to it |
| WordBuilding.WordBuilder.CSRoll | bearssl/T0/WordBuilder.cs:101-107 | the element at a depth moves to the top; the others keep their order |
| WordBuilding.WordBuilder.Build | bearssl/T0/WordBuilder.cs:72-84 | succeeds exactly on an empty control-flow stack, and adds `ret` if and only if a jump leads to the end or the last opcode may fall through |
| WordBuilding.LocalsDistinct | bearssl/T0/WordBuilder.cs:272-279 | different locals have different numbers, all below their count |
| Gathering.Gather | bearssl/T0/T0Comp.cs:1478-1499 | the words of the program are the least set that contains the entry points and all references out of it; it fails exactly when there is no such set |
| Linker.AssignSlots | bearssl/T0/T0Comp.cs:1569-1625 | words with C code share a slot exactly when their code is equal; interpreted words follow without gaps |
| Linker.GenerateCodeElements | bearssl/T0/WordInterpreted.cs:106-121 | one element per opcode behind the number of locals; every jump element aims at the element of its target opcode |
| Linker.Generate | bearssl/T0/T0Comp.cs:1569-1679 | code block, entry table and slots agree with the words; it fails exactly for a native word without C code, an entry point with C code, or a number of locals over 255 in one-byte mode |
| FlowAnalysis.FlowAnalyser.AnalyseFlow | bearssl/T0/WordInterpreted.cs:142-268 | ends on every program; acceptance leaves a certificate that is the least one, and a walk with at most as many targets as opcodes; rejection is explained by a cycle of calls, by a call of no word, by the absence of any certificate or matching effect, or by a walk with a target too many |
| FlowAnalysis.AnalyseSelfJump | bearssl/T0/WordInterpreted.cs:172-238 | the analysis of a word that jumps to itself ends in an overrun |
| FlowWalk.OverrunOrComplete | bearssl/T0/WordInterpreted.cs:172-238 | no code has both a walk that ends with all targets in place and one that runs out of places |
| FlowWalk.OverrunExact | bearssl/T0/WordInterpreted.cs:172-238 | code that has a certificate runs out of places if and only if its walk does not end with all targets in place |
| FlowWalk.CycleOverruns | bearssl/T0/WordInterpreted.cs:172-238 | code that reaches a cycle of unconditional jumps runs out of places, even where a certificate exists |
| FlowWalk.CycleNeverCompletes | bearssl/T0/WordInterpreted.cs:172-238 | code that reaches such a cycle is never accepted, certificate or not |
| FlowWalk.OverrunNeedsJumpToJump | bearssl/T0/WordInterpreted.cs:213-222 | code in which no jump leads to another jump never runs out of places |
| FlowAnalysis.FlowAnalyser.Explore | bearssl/T0/WordInterpreted.cs:154-238 | the worklist follows every path to its end, or stops at the first thing that cannot be reconciled |
| FlowAnalysis.FlowAnalyser.MergeSA | bearssl/T0/WordInterpreted.cs:127-140 | a height is recorded once, and a second one must be equal |
| FlowCert.AbsorbForced | bearssl/T0/WordInterpreted.cs:163-238 | each round does only what every certificate for the code must contain |
| FlowBounds.RunSafe | bearssl/T0/WordInterpreted.cs:142-268 | no run of an accepted word underflows, re-enters a word or exceeds the return stack bound; its own opcodes are met at the recorded heights, and it returns, if at all, with exactly the announced change of height |
| FlowBounds.NoCallCycle | bearssl/T0/WordInterpreted.cs:144-153 | acceptance implies that no chain of reached calls leads back to where it started |
| FlowBounds.RunBounded | bearssl/T0/WordInterpreted.cs:270-275 | no run exceeds the data stack bound by more than the growth of one native word, which the bounds reported for native words leave out |
| FlowBounds.ReportedBoundExact | bearssl/T0/Word.cs:150-162 | with native words of effect e, the bounds of all callers plus an extra hold if and only if the extra covers the growth of e; the bounds alone, if and only if e does not grow the stack |
| FlowBounds.CounterExample | bearssl/T0/Word.cs:150-162 | one call of a native word that leaves more than it takes exceeds the computed bound by all the difference |
| Processor.CPU.Push | bearssl/T0/CPU.cs:105-115 | the stack grows by one element; the array is replaced by one of twice the length exactly when it is full; frames are untouched |
| Processor.CPU.Rot | bearssl/T0/CPU.cs:129-135 | the overlapping copy moves the element at the depth to the top |
| Processor.CPU.NRot | bearssl/T0/CPU.cs:141-147 | the overlapping copy moves the top to the depth |
| Processor.RotationsCancel | bearssl/T0/CPU.cs:129-147 | each rotation undoes the other, and both only move elements around |
| Processor.CPU.Enter | bearssl/T0/CPU.cs:65-74 | a new frame with zeroed locals goes on the chain; the caller's place is saved in it |
| Processor.CPU.Exit | bearssl/T0/CPU.cs:78-83 | the activations below are restored exactly |
| Processor.CPU.RunOpcode | bearssl/T0/T0Comp.cs:1411-1417 | fetching and running any opcode, calls of native words with any of their outcomes included, over arrays and linked frames is a step of the abstract machine |
| Simulation.FetchOp | bearssl/T0/T0Comp.cs:1905-1946 | at the address of an opcode, a positive 16-bit number, the interpreter fetches that opcode with its operand and ends at the address of the next one |
| Simulation.EntryAt | bearssl/T0/T0Comp.cs:1813-1821 | entering a slot reads the word's number of locals and ends at its first opcode |
| Simulation.LocalsReadBack | bearssl/T0/T0Comp.cs:1813-1821 | the number of locals is read back if and only if it is below 128 or slots take several bytes |
| Simulation.EntryReadsBack | bearssl/T0/T0Comp.cs:1813-1821 | the 16-bit table leads to the first element of a word if and only if the address of that element fits |
| Simulation.FarEntryLost | bearssl/T0/T0Comp.cs:1659-1679 | in generated code, a word that comes after one of 65535 or more opcodes has an address that the table does not lead to |
| Bytecode.FrameReadsBack | bearssl/T0/T0Comp.cs:1813-1831 | after entering a word, returning finds the place and the height of the return stack from before if and only if that place is positive and both it and the number of locals fit 16 bits |
| Simulation.ReturnFrames | bearssl/T0/T0Comp.cs:1911-1920 | `ret` unpacks address and number of locals, drops just that frame, and finds the caller's place or the final 0 |
| Simulation.SimStep | bearssl/T0/T0Comp.cs:1898-1967 | every round of the interpreter is a step of the opcode machine, with equal data, equal locals, and frames packed as address plus locals shifted by 16 |
| Simulation.SimProgress | bearssl/T0/T0Comp.cs:1898-1967 | where the opcode machine can go on and the stacks have room, the interpreter does not fault |
| Correctness.SimRun | bearssl/T0/T0Comp.cs:1898-1967 | every run of the bytes is a run of the opcodes, state by state |
| Correctness.StoppedIffReturned | bearssl/T0/T0Comp.cs:1915-1918 | the interpreter stops exactly when the entered word has returned |
| Correctness.KeepsBelow | bearssl/T0/T0Comp.cs:1813-1831 | what the return stack held before the call is never written |
| Correctness.CompiledRunCorrect | bearssl/T0/T0Comp.cs:1501-1519 | no run of the bytes of an accepted word faults or exceeds the analysed bounds, plus on the data stack the growth of one native word, whatever the native words do within their declarations; when it stops the return stack is as before and the height has changed as declared |
| Compiler.Compile | bearssl/T0/T0Comp.cs:1469-1679 | gathered, analysed within the limits and linked; every way to fail has its reason: no closed set of words if and only if unresolved, a justified verdict, an accepted entry point over the limits, or at least one of the conditions of the linker violated; what remains for faithful code is a condition on the output alone: 16-bit addresses, few locals, short expressions, and native code exactly for native words |
| Compiler.EndToEnd | bearssl/T0/T0Comp.cs:1501-1519 | the generated code runs without fault on stacks with room for the configured limits, and on the data stack for the growth of one native word |
| Example.ExampleSetup | bearssl/T0/T0Comp.cs:1469-1679 | a program of one word that calls `dup`, and its bytes, meet every hypothesis of the theorem on compiled runs, with a native word that grows the stack |
| Example.ExampleRun | bearssl/T0/T0Comp.cs:1898-1967 | the bytes of that word, on a data stack of two elements, end with 5 on it twice |
| JsonRoundTrip.PrintThenParse | tinyjson.h:339-351 | parsing a printed value gives it back and leaves whatever follows, unless that extends a number; numbers are the integers of 64 bits that a double holds |
| JsonRoundTrip.PrintInjective | tinyjson.h:428-447 | different values have different texts |
| JsonRoundTrip.PrintClean | tinyjson.h:378-400 | printed values contain no line feed and no other control character |
| JsonRoundTrip.ParsedReadable | tinyjson.h:223-272 | whatever text is parsed, the strings that result can be printed and read back |
| JsonPrefix.ValueAppend | tinyjson.h:294-351 | a complete value is read the same whatever is appended behind it |
| JsonGlue.ValueGlue | tinyjson.h:339-351 | the text of an object glued to another text never changes a value there, and never completes one, but for a string that its first quote closes |
| JsonText.Cursor.ParseStringRaw | tinyjson.h:223-272 | the loop over characters and escapes reads what the specification reads and leaves the cursor behind the closing quote |
| JsonText.Cursor.ParseItems | tinyjson.h:294-311 | the array loop collects the elements up to the closing bracket, or fails |
| JsonText.Cursor.ParseMembers | tinyjson.h:313-337 | the object loop collects the members up to the closing brace, or fails |
| JsonText.Cursor.ParseValue | tinyjson.h:339-351 | the dispatch reads one value; the recursion ends on every text |
| JsonText.Parse | tinyjson.h:353-357 | the first value of a text, if there is one |
| JsonText.Buffer.Put | tinyjson.h:363-374 | bytes are appended; where they do not fit with a final NUL, the capacity is doubled from 128 or what it was until they do, and no further |
| JsonText.Buffer.PutValue | tinyjson.h:428-447 | the text of a value is appended |
| JsonTree.AppendChild | tinyjson.h:116-128 | the child list is extended at its end; next, prev and child pointers mirror each other again, and only the last node, the parent and the new node are written |
| JsonTree.Delete | tinyjson.h:105-114 | exactly the owned nodes of a list are freed, each once, and with them their keys and strings; children of references are left alone, their strings are not |
| JsonTree.FreesOnce | tinyjson.h:105-114 | the strings freed, in order, are those that the list holds, and none is freed twice if and only if no two nodes share one |
| JsonTree.ReferenceTwice | tinyjson.h:141-151 | deleting a reference and the node it refers to frees no string twice if and only if that node has none |
| JsonTree.DeleteItemFromArray | tinyjson.h:193-203 | the element and what it owns are freed, strings included, the list closes over the gap, and indices past the end change nothing |
| JsonTree.AddReference | tinyjson.h:141-151 | the new member shares the children and the string of the other node, with a key of its own |
| JsonTree.Request | main.c:1114-1123 | building and deleting a request frees all its own nodes and leaves the shared message and tool lists as they were; all strings are still there if and only if the two list nodes have none of their own |
| JsonTree.GetArrayItem | tinyjson.h:172-177 | walking the list finds the element at the index, null past the end |
| JsonBuild.ParseValue | tinyjson.h:339-351 | whatever the text, the parser either returns a tree that stands alone, holds the value that is read, and owns all that was allocated, without sharing; or nothing, and everything it allocated has been freed |
| JsonBuild.ParseItems | tinyjson.h:294-311 | the array loop appends one tree per element, and deletes the array with all of them when it fails |
| JsonBuild.ParseMember | tinyjson.h:320-329 | a key is allocated before its value is read; it becomes part of the value, or is freed again |
| JsonBuild.ParseAndDelete | tinyjson.h:353-357 | parsing any text and deleting the result leaves the heap as it was |
| Stream.ChunksIrrelevant | main.c:386-415 | the state after any chunks is the one that their concatenation gives |
| Stream.BytesAreLines | main.c:396-413 | the blocks are built from the finished lines without CR, over-long lines dropped whole; the line buffer holds the unfinished line up to the cap |
| Stream.LinesCut | main.c:396-413 | lines and rest are the one way to cut a text at its line feeds |
| Stream.BlockIs | main.c:349-371 | each block holds the concatenation of its deltas since its last start, cut at the cap |
| Stream.CountIs | main.c:329-346 | the block count is one past the highest index ever started |
| Stream.HeaderIs | main.c:337-345 | type, id and name of a block are those of its last start |
| Stream.StreamMeaning | main.c:386-415 | all of it together, for every way of cutting the stream: the raw head, the unfinished line, and contents, count and headers of the blocks |
| StreamMachine.StreamState.HandleEvent | main.c:323-384 | one event changes the mutable blocks as specified and keeps them under the cap |
| StreamMachine.StreamState.PutChunk | main.c:386-415 | a chunk is refused after an interrupt and otherwise taken whole |
| Chunked.StreamBody | main.c:181-218 | on a legal body, however reads are cut, the callback gets exactly the payload; of what follows the last size line, one or two bytes are taken |
| Chunked.ReadSizeLine | main.c:188-197 | the size line is read up to its CRLF and not beyond |
| Chunked.SizeLineExact | main.c:188-199 | a size line is read as a whole if and only if digits and a left-over line feed leave room for the CRLF in 31 places |
| Chunked.GarbledChunk | main.c:188-199 | with one digit more, the data arrive shifted by the line feed of the size line |
| History.PruneHeals | main.c:1082-1106 | pruning a well-paired history removes just the empty tool calls and their answers, leaves it well-paired, and does nothing the second time |
| History.Messages.PruneEmptyToolUse | main.c:1084-1106 | the backward in-place deletion computes the pruned list and counts what it removed |
| Compaction.CompactedPaired | main.c:1039-1061 | compaction keeps every tool call paired with its result |
| Compaction.ClearMessageKeeps | main.c:1044-1058 | roles, ids and kinds of all blocks survive, and nothing is left to clear |
| Compaction.ClearsOnlyResults | main.c:1044-1058 | only the text of clearable results changes: every other block and every other member is the same |
| Compaction.CompactIdempotent | main.c:1039-1061 | a second compaction finds nothing and changes nothing |
| Compaction.CompactShorter | main.c:1051-1056 | every cleared result makes the printed history at least one byte shorter |
| Compaction.ClearMessageExact | main.c:1051-1056 | compacted messages can still be printed and read back |
| Compaction.ClearToolResults | main.c:1039-1061 | the nested loops compute the compacted list, untouched in the last messages, and return the number of results cleared |
| Session.AppendExact | main.c:1015-1022 | an appended message is what the next load adds, and all it changes, if and only if there is nothing but space behind the last line feed |
| Session.OddKeyArrives | main.c:1015-1022 | without a condition on the first key that would be false: there is an unfinished line and an object that make up that object |
| Session.RewriteLoads | main.c:1024-1037 | loading a rewritten file gives back the messages |
| Session.SessionFile.LoadMessages | main.c:1063-1080 | reading line by line yields the messages of all lines, malformed and empty ones skipped |
| Session.SessionFile.Rewrite | main.c:1024-1037 | the file holds one printed line per message |
| Agent.BlocksToContent | main.c:419-440 | the content of a response, or nothing if a tool call has missing, malformed or empty input |
| Agent.AssistantIs | main.c:419-440 | the assistant message calls exactly the tools of its blocks, in order, all with input |
| Agent.RunTools | main.c:1159-1177 | the results answer exactly the tool calls, in order; every dispatched input was parsed and is not empty |
| Agent.Conversation.TakeResponse | main.c:1144-1184 | a response adds an assistant message and, if it calls tools, one message that answers all calls in order; a broken one adds nothing |
| Agent.Conversation.Compact | main.c:1129-1139 | compaction on overflow keeps pairing, and history and file in agreement; if it cleared anything the file holds this history alone; afterwards there is nothing left to clear |
| Agent.Conversation.ChatTurn | main.c:1109-1188 | whatever responses, overflows and interrupts occur, every exit keeps a well-paired history well-paired, leaves old messages as they were but for cleared results, adds no call without input, and leaves the file loading to the messages, behind those of earlier sessions or alone; a second overflow in a row ends the turn with 1 |
| Agent.Conversation.Resume | main.c:1249-1262 | a resumed session holds the pruned history of any file, and the file agrees with it; the healed history of a well-paired one |
| Agent.Conversation.Converse | main.c:1286-1303 | the same after any number of user messages and chat turns |
| Agent.FilePaired | main.c:1015-1037 | what a session leaves in a well-paired file is well-paired again |
| Agent.RunSession | main.c:1249-1303 | a whole run: a file with no unfinished line stays so, a well-paired one stays well-paired, and it holds exactly the messages of this session, perhaps behind those of earlier ones when it was not resumed |

## Left out

- Words that are interpreted and have C code as well, data words, execution tokens, blob pointers, `execute`, `co`, `pick` and `roll`: their effect is not described statically.
- Bodies of native words: they are relations between data stacks before and after, and complete only when they find the operands they declare; what they use in between is not modelled.
- Data words report a return stack use of 0 although they enter a frame of one slot; they are not part of this model.
- Linker.Generate: the order of the word dictionary is arbitrary instead of alphabetical, and sizes beyond the range of the generator's offsets are excluded.
- Correctness.CompiledRunCorrect: locals of a called word have arbitrary initial values; at compile time they are 0.
- WordBuilding.BuildWord: interpretation of source text, immediate words and literals are left out; operations are given as a sequence.
- Jump displacements use an optional value instead of the smallest integer as the mark of an unresolved jump.
- Comments, line wrapping and statistics of the output file; command line; tokeniser.
- JsonText.Cursor.ParseValue: nodes are values here; JsonBuild has the same parser with nodes on the heap.
- JsonBuild.ParseValue: the buffer that a string grows in while it is read is not on the heap of the model.
- JsonRoundTrip.PrintThenParse: what strtod and %g make of numbers that are not integers, or that a double or 64 bits do not hold, is not modelled, and neither are surrogate pairs.
- StreamMachine.StreamState.HandleEvent: block indices that are not plain integers (such as 1.0 or 1e0), or do not fit an int, count as missing, because the rounding of strtod is not modelled.
- JsonTree.Delete: key and string of a node do not change once it has a parent; replacing a string in place (tinyjson.h:207-212) is left out.
- Chunked.StreamBody: chunk extensions and trailer fields, and bodies without chunks.
- Agent.Conversation.ChatTurn: building, printing and sending requests; their outcome is arbitrary.
- Agent.Conversation.ChatTurn: agreement of the file holds as long as all messages can be printed and read back, and the file had no unfinished line when the session began or has been rewritten since.
- Session.AppendExact: for objects whose first key does not begin with a separator, as `role` does not.
- Networking, TLS, signals, tools, skills, rules, prompts, terminal handling.
- Allocation failure and failing file operations.
