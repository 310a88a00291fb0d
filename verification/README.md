# Verified models of MXNet's extension serializer, record packer and engine helpers

Dafny models of five parts of MXNet, each proved against an independent statement of what it is for.
`dafny verify dfyconfig.toml` checks the whole project.

**Graph serializer of the extension-library API** (`src/lib_api.cc`).
`JsonValue`, `JsonOrder` hold JSON values, their printed form and their comparison; `JsonStrict` gives the strict notation
every printed value obeys.
`JsonParser` says what the cursor-based parser does on *every* text (return, throw, or loop for ever) and proves the
source's loops against it.
`JsonGrammar` gives the accepted language as concrete syntax trees and proves the parser sound and complete for it;
`JsonBinding` says what a written map means when keys repeat, dangle or are not strings.
`JsonRoundTrip` proves that printing and parsing undo each other; `JsonTermination` proves exactly when the parser
returns, throws or never stops.
`GraphSort` is the depth-first topological sort; `GraphJson` and `GraphIo` are the conversions to and from JSON;
`GraphEmitted` describes the emitted value and `GraphReading` the graph read from an arbitrary value, each part by part;
`GraphRoundTrip`, `GraphMeaning` and `GraphText` prove that a graph saved as text loads as the same graph up to node
numbering, nested subgraphs included, and computes the same expressions.

**`im2rec`** (`tools/im2rec.py`).
`Im2recPipeline` is the multi-process mode as an interleaved transition system; `Im2recProof` proves safety, absence of
deadlock and termination of every run; `Im2recWriter` is the writer's loop nest.
`ImageLists` and `ListFile` are list splitting and the `.lst` format.

**Resource manager** (`src/resource.cc`): `ResourcePicker`, `ResourceThreads`, `ResourceSpace`, `ResourceSeed`.

**CSR multiply** (`sparse_attempt.cc`): `SparseMultiply` is the transposed branch, proved to be the product;
`SparsePlain` is the other branch, proved to be the product exactly for one family of matrices.
**Variable handles** (`include/mxnet/engine.h`): `VarHandles`.

## How the model reads the code

- Parsing outcomes are values: `OutOfRange` is the exception `std::out_of_range`, thrown by `stoi` or by `substr` while
  an unterminated bracket is reported; `Hang` is the endless loop on a closing bracket of the wrong kind.
- A node pointer is the node's position in the graph's node vector. `None` from `ReadGraph` is a null dereference or a
  read past the end of a list.
- The topological sort picks an arbitrary member of an unordered set. Specifications quantify over all results
  (`SortResult`, `Emits`), so every theorem holds for every choice. `GraphIo.ToJson` has no precondition, so every graph
  has an emitted value, and `GraphExample.ReluGraphQualifies` exhibits a graph that meets all conditions of
  `GraphText.TextRoundTrip`.
- `image_encode` is a function from an item to a record or a failure. Ratios, labels and matrix entries are exact.
- The help text of `--num-thread` (tools/im2rec.py:307-310) says the order of images changes with several threads; the
  code restores the input order, and that is what is proved.
- The comment on `csrmm` (sparse_attempt.cc:61-72) promises the product for both branches; the untransposed branch
  exchanges row and entry, and `SparsePlain` states what it computes.
- After `GetNext` resets its counter the next slot is skipped; `RoundRobinExactly` states when that shows.

## Model

| member | source | states |
|---|---|---|
| `JsonValue.SortedKeys` | src/lib_api.cc:324-333 | keys come in the strictly ascending order in which a `std::map` iterates, none missing, none added |
| `JsonValue.ToDigits` | src/lib_api.cc:272 | the printed digits denote the number, without leading zeros |
| `JsonValue.LessByFirstDifference` | src/lib_api.cc:276-278 | a string precedes another exactly when, at the first position where they differ, it has ended or has the smaller character |
| `JsonStrict.IntText` | src/lib_api.cc:272 | an integer's text is a minus sign if negative, then its decimal digits without leading zeros |
| `JsonStrict.DumpStrict` | src/lib_api.cc:302-336 | every value prints in strict notation: items separated by exactly one comma, each pair a quoted key, space, colon, space, value, keys ascending, and no other character anywhere |
| `JsonOrder.StringsOrdered` | src/lib_api.cc:276-280 | on strings the comparison is irreflexive, transitive, and ties only equal strings |
| `JsonOrder.ComparedBy` | src/lib_api.cc:276-288 | strings compare by first difference, numbers by value, lists by length and then only if no item precedes its counterpart |
| `JsonOrder.MixedKeysTied` | src/lib_api.cc:276-280 | a string and a number are always tied, so ties are not transitive on mixed keys |
| `JsonOrder.ComesBeforeItself` | src/lib_api.cc:281-299 | exactly which values come before themselves |
| `JsonOrder.PlainListsPrecedeThemselves` | src/lib_api.cc:281-288 | every list of plain values comes before itself, so lists cannot be keys |
| `JsonParser.ParseString` | src/lib_api.cc:343-357 | the loop yields the specified string, cursor and error |
| `JsonParser.ParseNum` | src/lib_api.cc:359-371 | the loop reads the maximal run of digits, value and text, or throws on overflow |
| `JsonParser.ParseList` | src/lib_api.cc:373-387 | the loop agrees with the specification whenever that does not hang, and terminates |
| `JsonParser.ParseMap` | src/lib_api.cc:389-407 | the loop agrees with the specification whenever that does not hang, and terminates |
| `JsonParser.ParseValue` | src/lib_api.cc:409-428 | the loop agrees with the specification whenever that does not hang, and terminates |
| `JsonGrammar.LayoutParses` | src/lib_api.cc:343-428 | any valid layout, with arbitrary filler between tokens, parses to its value and the cursor stops right after it |
| `JsonGrammar.ValueWritten` | src/lib_api.cc:343-428 | whatever value the parser returns was written there by a valid layout |
| `JsonGrammar.ParserMeetsGrammar` | src/lib_api.cc:343-428 | the parser returns a value and cursor if and only if a valid layout of that value is written there |
| `JsonBinding.LastBindingWins` | src/lib_api.cc:389-407 | a written map has string keys exactly when every key given a value is a string; it then holds exactly the written keys, the last pair of a key wins, and a dangling key before filler is bound to the error value |
| `JsonRoundTrip.ParseUndoesDump` | src/lib_api.cc:302-428 | wherever in a text a printable value is printed, parsing there returns exactly that value and stops right after it |
| `JsonRoundTrip.RoundTripExactly` | src/lib_api.cc:302-428 | an error-free value survives printing and parsing if and only if its strings and numbers are well formed |
| `JsonRoundTrip.ParsedValuesRoundTrip` | src/lib_api.cc:302-428 | every error-free value the parser returns is well formed and survives printing and parsing, leading zeros included |
| `JsonRoundTrip.NegativeNumbersLoseTheirSign` | src/lib_api.cc:409-428 | a negative number comes back without its sign |
| `JsonRoundTrip.IntegersRoundTripExactly` | src/lib_api.cc:272 | an `int` survives printing and parsing if and only if it is not negative |
| `JsonTermination.HangExactlyOnMismatch` | src/lib_api.cc:373-428 | on every text, the parser hangs if and only if a left-to-right bracket scan meets a closer of the wrong kind |
| `JsonTermination.ParserOutcomeExactly` | src/lib_api.cc:343-428 | on every text: it throws if and only if the scan meets a number above 2147483647, a string cut off inside a bracket, or the end of the text inside two brackets; it hangs on a mismatch and returns otherwise |
| `JsonTermination.ParserTerminatesExactly` | src/lib_api.cc:373-428 | run literally with a step budget, the loops never finish on a mismatched text and finish within a linear budget, with the specified outcome, on every other |
| `JsonTermination.ParseText` | src/lib_api.cc:338-341 | on a text without mismatch the top-level parse returns the specified outcome |
| `GraphSort.NoBackEdge` | src/lib_api.cc:650-660 | on an acyclic graph no consumer of the node being visited is on the recursion stack |
| `GraphSort.Visit` | src/lib_api.cc:650-660 | visiting keeps every node to visit, finished or on the stack, finished nodes distinct with consumers first, and shrinks the set to visit |
| `GraphSort.TopologicalSort` | src/lib_api.cc:663-685 | each node is listed exactly once, consumers come before producers if and only if the graph is acyclic, and inputs without producers are listed in input order |
| `GraphSort.OrderedMeansAcyclic` | src/lib_api.cc:678-685 | an order with consumers first exists only for acyclic graphs |
| `GraphRoundTrip.ProducersFirst` | src/lib_api.cc:569-623 | every input index in the emitted node list is smaller than the index of the node using it |
| `GraphRoundTrip.ConsumersMembers` | src/lib_api.cc:525-534 | output lists are exactly the inverse of all input lists, each edge once |
| `GraphRoundTrip.NullNodesMembers` | src/lib_api.cc:504-506 | the rebuilt inputs are exactly the "null" nodes, in order |
| `GraphRoundTrip.EmittedGraphReadsBack` | src/lib_api.cc:488-642 | whatever order the sort picks, reading an emitted graph yields an isomorphic graph, nested subgraphs included, heads in order |
| `GraphRoundTrip.ReadsBackExactlyWhenAcyclic` | src/lib_api.cc:525-535 | an emitted graph with consistent edges can be read back if and only if it is acyclic |
| `GraphRoundTrip.AttributesAndInputsReadBack` | src/lib_api.cc:547-555 | attributes come back without the reserved keys, inputs as the "null" nodes |
| `GraphRoundTrip.ArgNodesEmitted` | src/lib_api.cc:584-588 | the emitted argument list says where each graph input is emitted |
| `GraphEmitted.KeysEmitted` | src/lib_api.cc:564-603 | an emitted graph has exactly its attributes' keys and the four reserved keys, which take precedence |
| `GraphEmitted.RowPointersEmitted` | src/lib_api.cc:578-582 | `node_row_ptr` is the list of the numbers from 0 up to the number of nodes |
| `GraphEmitted.ContentsEmitted` | src/lib_api.cc:584-640 | arguments, heads and nodes part by part: every reference is the emitted index, the entry number and 0; every node has its operator, name, inputs, attributes, and subgraphs when there are any |
| `GraphReading.GraphReadOff` | src/lib_api.cc:488-557 | on every JSON value: a graph is built if and only if every input names an earlier node, every head has two items and every subgraph can be read; then each field, edge, input, head and attribute is the one written, missing parts included |
| `GraphMeaning.IsomorphicSameMeaning` | src/lib_api.cc:488-557 | isomorphic graphs have the same expressions at their heads, so the same values under any operator semantics |
| `GraphMeaning.SerializableEvaluable` | src/lib_api.cc:560-642 | the emitted order ranks the nodes, so every head of a serializable graph denotes an expression |
| `GraphText.EmittedPrintable` | src/lib_api.cc:560-647 | every value emitted for a graph with well-formed strings and non-negative indices survives printing and parsing |
| `GraphText.TextRoundTrip` | src/lib_api.cc:483-647 | `fromString` of `toString` succeeds, is isomorphic to the graph and computes the same expressions |
| `GraphIo.NumberNodes` | src/lib_api.cc:569-576 | the loop numbers the nodes by emitted position |
| `GraphIo.NodesToJson` | src/lib_api.cc:601-640 | the loop emits every node in order, with each node's subgraphs emitted |
| `GraphIo.ToJson` | src/lib_api.cc:560-642 | the loops return an emitted value of the graph, for every graph; the `GraphEmitted` lemmas say what that value holds |
| `GraphIo.ToString` | src/lib_api.cc:645-647 | the text is the print, in strict notation, of an emitted value |
| `GraphIo.ConnectInputs` | src/lib_api.cc:522-534 | the loop connects all inputs and appends to the producers' output lists, or reports an unset node |
| `GraphIo.FromJson` | src/lib_api.cc:488-557 | the loops build exactly the specified graph, or fail exactly where specified |
| `GraphIo.FromString` | src/lib_api.cc:483-486 | on a text without bracket mismatch the result is the specified one |
| `GraphIo.SaveAndLoad` | src/lib_api.cc:483-647 | the two loop nests composed return an isomorphic graph with the same meaning |
| `ShapeStrings.GetShapeAt` | src/lib_api.cc:249-257 | the loop computes the specified substring or throws |
| `ShapeStrings.ShapeAtPrinted` | src/lib_api.cc:249-257 | in a printed list of shapes, any index within the list yields exactly the printed element |
| `ShapeStrings.ShapeAtAny` | src/lib_api.cc:249-257 | every index, in range or not: in a list of n shapes it counts modulo n + 2, throws at n, and at n + 1 yields the first shape with the outer bracket |
| `ShapeStrings.GetDtypeAt` | src/lib_api.cc:259-267 | the loop computes the specified substring or throws |
| `ShapeStrings.DtypeAtPrinted` | src/lib_api.cc:259-267 | in a printed list of types, any index within the list yields exactly the printed element |
| `ShapeStrings.DtypeAtAny` | src/lib_api.cc:259-267 | every index from 1 on, in range or not: it counts modulo the length, and where the first type is due it comes with the outer bracket |
| `Im2recProof.StepInv` | tools/im2rec.py:212-263 | every step of any process keeps the invariant: each dealt item is in exactly one place, queues carry true messages, stop messages come last |
| `Im2recPipeline.EncodedHoldsRecords` | tools/im2rec.py:253-259 | the sequential output lists, in input order, the id and record of exactly the items that encode |
| `Im2recProof.QueuesAndLanes` | tools/im2rec.py:346-361 | at every moment of every run no queue exceeds its capacity and item i is handled by worker i modulo the number of workers |
| `Im2recProof.WrittenInOrder` | tools/im2rec.py:246-263 | at every moment of every run the file holds, in order, the id and record of exactly those items counted so far that encode |
| `Im2recProof.EndedComplete` | tools/im2rec.py:345-366 | when the main process ends, the file holds the id and record of exactly the items that encode, in input order; buffer and queues are empty, workers gone |
| `Im2recProof.NoDeadlock` | tools/im2rec.py:345-366 | with capacities of at least one, every reachable state before the end has an enabled step |
| `Im2recProof.StepDecreases` | tools/im2rec.py:221-263 | a natural-number measure goes down on every step |
| `Im2recProof.RunsAreBounded` | tools/im2rec.py:345-366 | no run is longer than a bound linear in items and workers, whatever the capacities |
| `Im2recProof.MaximalRunsComplete` | tools/im2rec.py:345-366 | every run that cannot continue has ended with the id and record of exactly the items that encode, in input order: interleaving does not matter |
| `Im2recProof.ModesAgreeExactly` | tools/im2rec.py:381-386 | the single-process mode writes the same records if and only if no item fails |
| `Im2recWriter.Drain` | tools/im2rec.py:253-263 | the inner loop writes buffered results while the next in order is there; the file holds exactly the records of the items counted |
| `Im2recWriter.WriteWorker` | tools/im2rec.py:228-263 | for any order of arrival, exactly the records of the longest unbroken prefix of items are written in order, failed items skipped, and the rest stays buffered |
| `Im2recWriter.WriteAll` | tools/im2rec.py:228-263 | when all items arrive, exactly the records of all items that encode are written in order and the buffer is empty |
| `ImageLists.SplitPartitions` | tools/im2rec.py:112-121 | the lists follow each other in the chunk, at most one image is lost, and none if and only if the stated condition on the ratios holds |
| `ImageLists.SplitSizes` | tools/im2rec.py:112-121 | the test list gets the nominal chunk size times its ratio, truncated, or the whole chunk if shorter; the training list likewise of what is left |
| `ImageLists.FilesWritten` | tools/im2rec.py:114-121 | exactly when a test and a validation file are written, and that a ratio of one puts the whole chunk into training |
| `ImageLists.MakeLists` | tools/im2rec.py:104-121 | the chunks concatenate to the whole list for every list and chunk count, each full until the images run out and each split as specified, losing nothing when the ratios leave room |
| `ListFile.FloatReadsBack` | tools/im2rec.py:88-89 | reading a printed label gives it rounded to six decimals |
| `ListFile.LineText` | tools/im2rec.py:86-91 | a line is the index in decimal, every label as digits, point and six digits denoting the nearest millionth with ties to even, and the path, one tab between neighbours and a line break at the end |
| `ListFile.BlanksIgnored` | tools/im2rec.py:137 | blanks around the fields of a line make no difference to what is read |
| `ListFile.ReadUndoesWrite` | tools/im2rec.py:75-148 | reading a written list returns the items that have a label, in order, labels rounded |
| `ListFile.SurvivingExactly` | tools/im2rec.py:75-148 | a list comes back unchanged if and only if every item has a label and all labels are exact to six decimals |
| `ListFile.WriteList` | tools/im2rec.py:75-91 | the loops write the specified text |
| `ListFile.ReadList` | tools/im2rec.py:123-148 | the loop returns the readable lines' items |
| `ResourcePicker.Picker.GetNext` | src/resource.cc:302-311 | the slot returned and the counter left, with the 64-bit increment written out |
| `ResourcePicker.RoundRobinExactly` | src/resource.cc:302-311 | n calls in a row return each of the n slots once if and only if the counter is not reset before the last of them |
| `ResourceThreads.CounterNeverOverflows` | src/resource.cc:302-311 | in every interleaving of T threads the counter stays at most the limit plus T, so it never wraps |
| `ResourceThreads.UninterruptedCall` | src/resource.cc:302-311 | a call no other thread interrupts moves the counter as the sequential code does, the 64-bit limit written out |
| `ResourceThreads.TakesGetDifferentSlots` | src/resource.cc:428-437 | up to n takes with no store in between get different slots, whichever threads make them |
| `ResourceSpace.ServeSound` | src/resource.cc:69-88 | each request gets a live block at least as large as asked, no capacity shrinks, live storage stays exactly the slots' handles |
| `ResourceSpace.ServeExactly` | src/resource.cc:69-88 | a request that fits changes nothing; any other frees exactly the old block, allocates exactly one of the requested size, and leaves every other handle alone |
| `ResourceSpace.EverythingFreedOnce` | src/resource.cc:280-300 | after any requests and destruction nothing is live and every block ever allocated was freed exactly once |
| `ResourceSpace.TempSpace.GetSpace` | src/resource.cc:69-80 | device space: unchanged if the block is large enough; otherwise exactly that block is freed and exactly one of the requested size allocated, all else unchanged |
| `ResourceSpace.TempSpace.GetHostSpace` | src/resource.cc:82-88 | host space: unchanged if the block is large enough; otherwise exactly that block is freed and exactly one of the requested size allocated, all else unchanged |
| `ResourceSpace.TempSpace.Destroy` | src/resource.cc:291-300 | the destructor leaves nothing live and frees nothing twice |
| `ResourceSeed.SeedsDistinct` | src/resource.cc:402-408 | on up to 16 devices with fewer than 2^28 copies all 32-bit seeds differ |
| `ResourceSeed.SeedsRepeatBeyondLimit` | src/resource.cc:402-408 | with 2^28 more copies the seed repeats |
| `ResourceSeed.SeedStep` | src/resource.cc:402-408 | raising the global seed by one moves every generator seed by 127 modulo 2^32 |
| `ResourceSeed.GlobalSeedsMatter` | src/resource.cc:402-408 | different 32-bit global seeds give every generator different seeds |
| `ResourceSeed.ParallelRandom.constructor` | src/resource.cc:374-390 | every sampler starts with device + 16 i + 127 times the global seed modulo 2^32, undrawn, counter at its start |
| `ResourceSeed.ParallelRandom.SeedWithDeviceID` | src/resource.cc:402-408 | after reseeding, every sampler has device + 16 i + 127 times the seed modulo 2^32, undrawn: nothing else of the past is left |
| `ResourceSeed.ParallelRandom.Seed` | src/resource.cc:410-416 | after reseeding, every sampler has 16 i + 127 times the seed modulo 2^32, undrawn: nothing else of the past is left |
| `ResourceSeed.DrawsAfterReseeding` | src/resource.cc:401-437 | the k-th draw after reseeding uses slot k mod n, whose generator has seed device + 16 (k mod n) + 127 times the seed modulo 2^32, and is number (k-1)/n of it |
| `SparseMultiply.ScatterRow` | sparse_attempt.cc:130-132 | the inner loop adds one sparse row, repeated columns included, to one row of the destination and changes nothing else |
| `SparseMultiply.Csrmm` | sparse_attempt.cc:107-134 | the loops leave dst^T = alpha A^T op(B) + beta dst^T |
| `SparseMultiply.ColumnEntries` | sparse_attempt.cc:61-72 | the matrix the arrays stand for: entries of other columns do not count, a single entry is the element, repeated entries add up |
| `SparseMultiply.UnitColumn` | sparse_attempt.cc:61-72 | multiplying by a unit column, stored either way round, picks one row of the matrix |
| `SparseMultiply.ProductLinear` | sparse_attempt.cc:61-72 | the product is linear in the dense operand, so unit columns determine it |
| `SparseMultiply.OneHotProduct` | sparse_attempt.cc:17-24 | with unit values and one entry per row the product is the per-word sum of gradients |
| `SparseMultiply.EmbeddingBackward` | sparse_attempt.cc:1-25 | the embedding gradient is the scatter-add per word, and the word numbers are restored |
| `SparsePlain.Csrmm` | sparse_attempt.cc:107-143 | the loops of the untransposed branch add to each cell what the exchanged indices give |
| `SparsePlain.RightExactlyOnStaircases` | sparse_attempt.cc:135-143 | for matrices without zeros or repeated columns, the branch stays in bounds and computes the product for every dense operand if and only if the first rows hold one entry each and the others none |
| `SparsePlain.TwoEntriesInOneRow` | sparse_attempt.cc:135-143 | two entries in the first row: the product with ones is (5, 0), the branch adds (2, 2) |
| `VarHandles.Unique` | include/mxnet/engine.h:293-298 | a sorted vector becomes strictly increasing with the same elements |
| `VarHandles.RemoveWritten` | include/mxnet/engine.h:299-308 | the in-place two-cursor loop leaves exactly the handles not written, strictly increasing |
| `VarHandles.Deduplicate` | include/mxnet/engine.h:291-309 | both vectors end strictly increasing, writes unchanged as a set, reads equal to old reads minus old writes |

## Left out

- Maps with a key that is not a string: their contents depend on a comparison that is no order, so the parser's model
  keeps only that such a map was read (`OddMap`).
- The width of the parser's cursor: `unsigned int` is modelled as unbounded.
- `GraphSort.TopologicalSort`: beyond consumers first and the order of the inputs, does not say which order is returned;
  the source fixes it only up to the iteration order of an unordered set.
- Pointers as heap objects: graphs are values, so sharing of nodes between graphs and the deletion of nodes are not modelled.
- `JsonVal::toString`, `Graph::print`, `addNode`, `getNode`, tensors and pass resources of nodes: only easy members.
- The `_opCall*`, `_partCall*`, `_passCall*` functions and the operator registries of `src/lib_api.cc`: C interface
  marshalling around user callbacks.
- `ListFile.ReadLine`: reads plain decimal numbers only; exponents, underscores, infinities and non-ASCII digits or
  spaces, which Python also accepts, are not modelled. Line breaks are `\n` only.
- Listing, shuffling, reading and encoding image files, and RecordIO output, in `tools/im2rec.py`.
- An exception in a worker outside the guarded parts of `image_encode` would stop the pipeline; it is not modelled.
- `VarHandles.Sort`: stands for `std::sort`; only that it sorts and permutes is used.
- GPU arrays, cuDNN dropout seeding and the engine's scheduling in `src/resource.cc`: operations on one resource are
  taken to run in the order they are pushed.
- The cuSPARSE versions of `csrmm`.
- `SparsePlain.Csrmm`: out-of-bounds accesses, which the code does not check for, are excluded by its precondition;
  `SparsePlain.RightExactlyOnStaircases` includes them among the failures.
- Rounding of floating-point arithmetic.
