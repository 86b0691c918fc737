# Verified models of MXNet's graph import, layout rewrites, packing and codecs

A Dafny model of six parts of MXNet whose correctness depends on whole recursions, whole runs or agreement
between several functions. `dafny verify dfyconfig.toml` checks all of it.

- **ONNX graph ordering and import** (`Toposort`, `ModelImport`, `Subgraphs`). The three-colour depth-first search is
  proved sound and complete for cycles and repeated names. The meaning of a graph is defined without any order, as
  the environment that solves every node's equation; it is proved unique, and the import loop is proved to succeed
  exactly when it exists and to return it. `supportsModel` is modelled as written, including the marks.
- **Layout rewrites** (`TensorLayout`, `Transpose`, `Softmax`, `DepthSpace`). A tensor is a shape and its row-major
  data; what a transpose means is stated on coordinates. All results hold for every rank.
- **Image packing** (`PackPipeline`, `MakeList`). Feeder, N readers and the reordering writer are a step system with
  bounded queues of any capacity; the results are about every interleaving.
- **JSON reader and printer** (`Json`, `JsonTexts`, `JsonHalting`, `JsonReader`, `JsonSlices`). The recursive descent,
  the printer and the two string slicers; what the reader makes of any text of the JSON subset, map entries in any
  order; and an automaton that tells exactly which texts make it halt, throw or hang.
- **Plugin serialization** (`Serialize`, `PluginCodec`). Fields of any kind in any number behind the header.
- **Dependency lists and resource rotation** (`Dedup`, `Rotation`).
- `Sequences`, `Arithmetic` and `Wrappers` hold what several of these share.

Code that updates state in place is a class or a method with loops, proved against a specification function or
predicate; the theorems are then about that specification.

## Where the code does not do what one would expect

- `is_transpose_required` returns true when *no* transpose is required: name and comment say the opposite of what its
  caller does with the answer. The model follows the caller.
- `supportsModel` marks a run before looking for the failing node in it, so the tail of a run that *began* with the
  failing node is reported as supported although it comes after the failure (`Subgraphs.TailAfterFailureIsMarked`;
  `Subgraphs.SplitMarks` gives the exact condition).
- `make_list` loses images when the ratios add up to 1 or more, the training ratio is not 1, and the truncated shares
  leave a gap (`MakeList.HalvesLoseAnImage`; `MakeList.Make` proves the exact condition).
- The Softmax importer does not flatten along the first dimension, so there it works on slices and not on the block of
  all elements; the two agree for every slice function if and only if nothing follows that dimension
  (`Softmax.FirstAxisBlockwise`, `Softmax.FirstAxisNotBlockwise`).
- The JSON reader never returns when it meets, before its first value ends, a closer that does not match the innermost
  open container (`JsonHalting.MismatchedCloserHangs`, `JsonHalting.ReaderFate` for the exact set of texts).
- Neither slicer checks its index. On a printed list of n > 0 ints `getDtypeAt` never fails: index k gives element
  k modulo n, with the opening bracket in front when k is a positive multiple of n (`JsonSlices.DtypeAtEveryIndex`).
  On a printed list of n > 0 int lists `getShapeAt` counts modulo n + 2: it throws on remainder n alone, and on n + 1
  gives the first element with an extra bracket (`JsonSlices.ShapeAtEveryIndex`). On the empty list index 0 gives the
  empty text and `]` (`JsonSlices.DtypeOfEmpty`, `JsonSlices.ShapeOfEmpty`).
- The reset in `GetNext` skips a slot, so a window of calls that crosses it hands out one slot twice
  (`Rotation.WindowCoversAllIff`).

## Model

| member | source | states |
|---|---|---|
| `Toposort.Sort` | 3rdparty/onnx-tensorrt/toposort.hpp:75-98 | succeeds if and only if no output name occurs twice and the producer relation has no cycle; the order then lists every node once with producers first; a list already in order is returned unchanged |
| `Toposort.PostOrder.Visit` | 3rdparty/onnx-tensorrt/toposort.hpp:37-71 | success extends the order by whole producer-closed parts and leaves the active chain as it was; refusal exhibits a genuine cycle; terminates because the unvisited set shrinks |
| `Toposort.ActiveNodeClosesCycle` | 3rdparty/onnx-tensorrt/toposort.hpp:44-47 | meeting an active node means that the active call chain from it on is a cycle |
| `Toposort.InputsCoverProducers` | 3rdparty/onnx-tensorrt/toposort.hpp:54-66 | following the name map through every input reaches every producer |
| `Toposort.FinishNode` | 3rdparty/onnx-tensorrt/toposort.hpp:67-68 | appending a node whose producers are visited keeps the order topological |
| `Toposort.BuildProducerMap` | 3rdparty/onnx-tensorrt/toposort.hpp:77-89 | refuses if and only if an output name occurs at two places; otherwise the map sends each name to its one producer |
| `Toposort.TopologicalOrderExcludesCycles` | 3rdparty/onnx-tensorrt/toposort.hpp:75-98 | a graph with a topological order has no cycle |
| `Toposort.PositionsDecreaseAlongPath` | 3rdparty/onnx-tensorrt/toposort.hpp:75-98 | along every dependency path positions in a topological order strictly decrease |
| `ModelImport.ModelImporter.ImportNodes` | 3rdparty/onnx-tensorrt/ModelImporter.cpp:530-561 | succeeds if and only if the graph is sortable and has a meaning: every node imported by its registered importer from the values of its inputs in their order, value k bound to output k, nothing else bound; returns the one meaning; on failure the current node and the code are those of a node, in the order returned, that cannot be imported |
| `ModelImport.ModelImporter.ImportOne` | 3rdparty/onnx-tensorrt/ModelImporter.cpp:533-559 | one turn of the loop extends the solution by the node, or reports why the node has no value |
| `ModelImport.ModelImporter.GatherInputs` | 3rdparty/onnx-tensorrt/ModelImporter.cpp:535-539 | input k of the node has the value bound to name k; refuses exactly when a name is not bound |
| `ModelImport.ModelImporter.BindOutputs` | 3rdparty/onnx-tensorrt/ModelImporter.cpp:542-551 | adds exactly the node's present values under fresh names; refuses exactly when a name is taken |
| `ModelImport.MeaningIsSolution` | 3rdparty/onnx-tensorrt/ModelImporter.cpp:527-561 | the meaning in plain terms and the solution of the equations are the same |
| `ModelImport.RunsYields` | 3rdparty/onnx-tensorrt/ModelImporter.cpp:138-150 | a node has values exactly when its importer yields them for its inputs |
| `ModelImport.MeaningIsUnique` | 3rdparty/onnx-tensorrt/ModelImporter.cpp:527-561 | a sortable graph has at most one meaning, so every topological order computes the same map |
| `ModelImport.PrefixesAgree` | 3rdparty/onnx-tensorrt/ModelImporter.cpp:532-560 | two solutions agree on all outputs of any prefix of the order |
| `ModelImport.NextInputsAgree` | 3rdparty/onnx-tensorrt/ModelImporter.cpp:536-539 | the inputs of the next node are settled because their producers come earlier |
| `ModelImport.RunNode` | 3rdparty/onnx-tensorrt/ModelImporter.cpp:541-551 | adding the values of a node that runs solves the graph for one more node |
| `ModelImport.MeaningForcesNode` | 3rdparty/onnx-tensorrt/ModelImporter.cpp:536-551 | if the graph has a meaning, neither lookup check fails at the next node |
| `ModelImport.FailureIsFinal` | 3rdparty/onnx-tensorrt/ModelImporter.cpp:537-547 | a node that fails leaves the graph without any meaning |
| `ModelImport.CompleteNodeRuns` | 3rdparty/onnx-tensorrt/ModelImporter.cpp:536-551 | with resolvable inputs, graph inputs not redefined and importers that return every output, each node runs |
| `ModelImport.ClashIsWithInput` | 3rdparty/onnx-tensorrt/ModelImporter.cpp:547 | a name found taken is a graph input |
| `Subgraphs.SupportsModel` | 3rdparty/onnx-tensorrt/ModelImporter.cpp:330-470 | true if and only if the parse succeeded and every node is wanted, that is, has an importer and does not read the input that failed; exactly the wanted nodes are held, but for the failing node if that is cut out; for lists in order the blocks are consecutive nodes with a missing one between any two and the marks are exact; for any sortable list blocks and marks as a function of the order, which is returned |
| `Subgraphs.ScanErrors` | 3rdparty/onnx-tensorrt/ModelImporter.cpp:335-360 | the node of the last error about a node, as a 64-bit unsigned index, and the name in the last error about an input |
| `Subgraphs.Partition` | 3rdparty/onnx-tensorrt/ModelImporter.cpp:368-469 | runs, cut and marks for any order without repetitions, and in terms of the supported nodes alone for a list in order; whole list in one marked run when everything is supported; the runs, unmarked, when an input was faulty |
| `Subgraphs.BuildRuns` | 3rdparty/onnx-tensorrt/ModelImporter.cpp:368-392 | the runs flatten to the supported nodes in order, none is empty, and for a list in order they are intervals separated by gaps |
| `Subgraphs.RunsAreSegments` | 3rdparty/onnx-tensorrt/ModelImporter.cpp:368-392 | the runs of any order are its maximal segments of supported nodes |
| `Subgraphs.SplitAtError` | 3rdparty/onnx-tensorrt/ModelImporter.cpp:414-460 | for intervals the in-place scan equals cutting every run at the failing node; for any order without repetitions the blocks and marks are exactly those of `ScanAnswer`; it terminates although it inserts as it goes |
| `Subgraphs.AllRuns` | 3rdparty/onnx-tensorrt/ModelImporter.cpp:368-392 | the same about the runs as a function of any order |
| `Subgraphs.ScanDone` | 3rdparty/onnx-tensorrt/ModelImporter.cpp:414-460 | on any order without repetitions the failing node, and nothing else, is removed if and only if neither its run nor an earlier one starts with a larger number, and the marks are settled |
| `Subgraphs.SearchNext` | 3rdparty/onnx-tensorrt/ModelImporter.cpp:416-459 | one turn of the scan on any order: still searching, or exactly the failing node has been removed |
| `Subgraphs.SearchEnds` | 3rdparty/onnx-tensorrt/ModelImporter.cpp:414-460 | on any order a block is marked if and only if neither it nor one before it starts after the failing node, what the cut left aside, and it did not take the place of an erased run |
| `Subgraphs.CutMarks` | 3rdparty/onnx-tensorrt/ModelImporter.cpp:424-456 | the marks right after each of the four cuts |
| `Subgraphs.AnswerFlattens` | 3rdparty/onnx-tensorrt/ModelImporter.cpp:414-460 | the blocks hold every supported node in order, without the failing one exactly when the scan gets to it |
| `Subgraphs.FoundAndCut` | 3rdparty/onnx-tensorrt/ModelImporter.cpp:428-457 | each of the four cuts removes the failing node and nothing else, in order |
| `Subgraphs.CutAt` | 3rdparty/onnx-tensorrt/ModelImporter.cpp:430-456 | at most two pieces, none empty, each shorter than the run |
| `Subgraphs.SplitFlattens` | 3rdparty/onnx-tensorrt/ModelImporter.cpp:414-460 | the cut keeps every node but the failing one, in order |
| `Subgraphs.SplitMarks` | 3rdparty/onnx-tensorrt/ModelImporter.cpp:419-455 | a piece is marked if and only if it ends before the failing node, or is the tail of a run that began with it |
| `Subgraphs.RunStarts` | 3rdparty/onnx-tensorrt/ModelImporter.cpp:373-391 | a node opens a run if and only if it is supported and its predecessor is not |
| `Subgraphs.FaultyInputIsFault` | 3rdparty/onnx-tensorrt/ModelImporter.cpp:350-358 | the faulty input is that of the last error about one |
| `Subgraphs.FailingNodeIsFailure` | 3rdparty/onnx-tensorrt/ModelImporter.cpp:344-348 | the failing node is that of the last error about one |
| `Subgraphs.KeepIsWanted` | 3rdparty/onnx-tensorrt/ModelImporter.cpp:372-373 | a node is kept exactly when it has an importer and does not read the faulty input |
| `Subgraphs.QueryHolds` | 3rdparty/onnx-tensorrt/ModelImporter.cpp:362-461 | which nodes are held, in terms of the list and the errors alone |
| `Subgraphs.SplitIntervals` | 3rdparty/onnx-tensorrt/ModelImporter.cpp:414-460 | after the cut there is still a missing node between any two blocks |
| `Subgraphs.CutIsCorrect` | 3rdparty/onnx-tensorrt/ModelImporter.cpp:394-461 | contents and marks of the cut in terms of the supported nodes alone |
| `Subgraphs.ScanShrinks` | 3rdparty/onnx-tensorrt/ModelImporter.cpp:414-460 | whatever a turn erases or inserts, the weight left to scan decreases |
| `Subgraphs.TailAfterFailureIsMarked` | 3rdparty/onnx-tensorrt/ModelImporter.cpp:424-440 | two supported nodes of which the first fails: the second is reported as supported |
| `Transpose.IsTransposeRequired` | 3rdparty/onnx-tensorrt/builtin_op_importers.cpp:40-55 | true if and only if transposing moves no element of any tensor of the shape |
| `Transpose.MovesNothingIffInOrder` | 3rdparty/onnx-tensorrt/builtin_op_importers.cpp:44-54 | row-major positions are unchanged if and only if the dimensions other than 1 keep their order |
| `Transpose.MovesNothingOnData` | 3rdparty/onnx-tensorrt/builtin_op_importers.cpp:40-55 | the same as a statement about the data of all tensors of the shape |
| `Transpose.TransposeTensor` | 3rdparty/onnx-tensorrt/builtin_op_importers.cpp:57-84 | on both branches the result is the transpose |
| `Transpose.ReshapeTransposes` | 3rdparty/onnx-tensorrt/builtin_op_importers.cpp:71-82 | when nothing moves, reshaping is transposing |
| `Transpose.MoveTensorDimension` | 3rdparty/onnx-tensorrt/builtin_op_importers.cpp:86-103 | refuses exactly the dimensions out of range; otherwise moves the dimension |
| `Transpose.EraseInsert` | 3rdparty/onnx-tensorrt/builtin_op_importers.cpp:93-101 | erasing and inserting again gives the permutation that moves one dimension |
| `Transpose.MoveBack` | 3rdparty/onnx-tensorrt/builtin_op_importers.cpp:86-103 | moving from and to, and back, are inverse permutations |
| `Transpose.MoveDimensionBack` | 3rdparty/onnx-tensorrt/builtin_op_importers.cpp:86-103 | moving a dimension there and back restores the tensor |
| `TensorLayout.TransposeByIsTranspose` | 3rdparty/onnx-tensorrt/builtin_op_importers.cpp:68-70 | the computed transpose carries every element along with its coordinates |
| `TensorLayout.TransposeUnique` | 3rdparty/onnx-tensorrt/builtin_op_importers.cpp:68-83 | a tensor has only one transpose |
| `TensorLayout.TransposeBack` | 3rdparty/onnx-tensorrt/builtin_op_importers.cpp:68-83 | transposing by the inverse permutation restores the tensor |
| `TensorLayout.SizeOfReordered` | 3rdparty/onnx-tensorrt/trt_utils.hpp:50-60 | reordering dimensions keeps the number of elements |
| `Softmax.Import` | 3rdparty/onnx-tensorrt/builtin_op_importers.cpp:1716-1740 | succeeds if and only if the axis is 1 to the rank or minus the rank to -1; axis 1 and minus the rank work along the first dimension, slice by slice; every other axis replaces each block of elements that share the coordinates before dimension axis - 1, or axis plus the rank, by its image, in place |
| `Softmax.ConvertAxis` | 3rdparty/onnx-tensorrt/onnx2trt_utils.hpp:323-337 | which axes convert, and to which dimension |
| `Softmax.ImportAlong` | 3rdparty/onnx-tensorrt/builtin_op_importers.cpp:1724-1739 | the rewrite for the converted axis |
| `Softmax.FlattenTensor` | 3rdparty/onnx-tensorrt/builtin_op_importers.cpp:120-131 | same data, dimensions from the axis on merged, ones behind |
| `Softmax.MovedToFront` | 3rdparty/onnx-tensorrt/builtin_op_importers.cpp:1727-1728 | flatten and move to the front is a matrix transpose of the data |
| `Softmax.MovedFromFront` | 3rdparty/onnx-tensorrt/builtin_op_importers.cpp:1736-1737 | and moving back is the inverse one |
| `Softmax.ColumnIsBlock` | 3rdparty/onnx-tensorrt/builtin_op_importers.cpp:1725-1729 | slice m along dimension 0 of the moved tensor is block m of the original |
| `Softmax.BlocksReplaced` | 3rdparty/onnx-tensorrt/builtin_op_importers.cpp:1725-1738 | flatten, move, layer, move back replaces every block by its image |
| `Softmax.ElementInBlock` | 3rdparty/onnx-tensorrt/builtin_op_importers.cpp:120-131 | a block holds exactly the elements that share their leading coordinates, in row-major order |
| `Softmax.BlockwiseIsUnique` | 3rdparty/onnx-tensorrt/builtin_op_importers.cpp:1716-1740 | the blockwise result is determined element by element |
| `Softmax.IdentityComesBack` | 3rdparty/onnx-tensorrt/builtin_op_importers.cpp:1734-1738 | with a layer that changes nothing every element returns to its place |
| `Softmax.AlongFirst` | 3rdparty/onnx-tensorrt/builtin_op_importers.cpp:1730-1732 | every slice along dimension 0 is replaced by its image |
| `Softmax.FirstAxisBlockwise` | 3rdparty/onnx-tensorrt/builtin_op_importers.cpp:1725-1732 | on the first axis the result is blockwise when nothing follows the dimension |
| `Softmax.FirstAxisNotBlockwise` | 3rdparty/onnx-tensorrt/builtin_op_importers.cpp:1725-1732 | and is not, for some slice function, on every tensor where something does |
| `DepthSpace.SpaceToDepth` | 3rdparty/onnx-tensorrt/builtin_op_importers.cpp:1753-1791 | refuses exactly when a spatial dimension is not a multiple of the block; otherwise channel c, block x, offset o goes to channel (o, c), position x |
| `DepthSpace.DepthToSpace` | 3rdparty/onnx-tensorrt/builtin_op_importers.cpp:896-933 | refuses exactly when the channels are not a multiple of the block size to the number of spatial dimensions; otherwise the same relation the other way |
| `DepthSpace.SpaceToDepthAndBack` | 3rdparty/onnx-tensorrt/builtin_op_importers.cpp:896-933 | DepthToSpace after SpaceToDepth returns the tensor, for every rank, block size and divisible shape |
| `DepthSpace.DepthToSpaceAndBack` | 3rdparty/onnx-tensorrt/builtin_op_importers.cpp:1753-1791 | SpaceToDepth after DepthToSpace returns the tensor whenever the first succeeds |
| `DepthSpace.GatherMovesElement` | 3rdparty/onnx-tensorrt/builtin_op_importers.cpp:1762-1787 | reshape, permute, reshape moves one element where SpaceToDepth promises |
| `DepthSpace.ScatterMovesElement` | 3rdparty/onnx-tensorrt/builtin_op_importers.cpp:905-930 | reshape, permute, reshape moves one element where DepthToSpace promises |
| `DepthSpace.SplitDimensions` | 3rdparty/onnx-tensorrt/builtin_op_importers.cpp:1763-1770 | splitting every spatial dimension into blocks moves no element |
| `DepthSpace.MergeChannel` | 3rdparty/onnx-tensorrt/builtin_op_importers.cpp:1781-1787 | merging the offsets into the channel moves no element |
| `DepthSpace.DeepChannelOfPair` | 3rdparty/onnx-tensorrt/builtin_op_importers.cpp:1771-1787 | with height and width, channel c at row and column offset goes to channel (row * b + column) * C + c |
| `DepthSpace.SpaceIsDetermined` | 3rdparty/onnx-tensorrt/builtin_op_importers.cpp:896-933 | the deep tensor determines the spatial one |
| `DepthSpace.DepthIsDetermined` | 3rdparty/onnx-tensorrt/builtin_op_importers.cpp:1753-1791 | the spatial tensor determines the deep one |
| `PackPipeline.EveryRun` | tools/im2rec.py:345-366 | in every interleaving there is, for the items passed so far, exactly one record for each item that could be encoded, in input order, made of its number and its encoding; queues keep their capacity and item i passes through reader i mod N; the run is bounded in length, and a run that cannot go on has passed all items and has an empty buffer |
| `PackPipeline.StepKeepsInv` | tools/im2rec.py:212-263 | every step of feeder, reader or writer keeps conservation, payloads, writer state, stop markers and end marker right |
| `PackPipeline.RunKeepsInv` | tools/im2rec.py:345-366 | the invariant holds in every reachable state and the measure falls with every step |
| `PackPipeline.NotStuck` | tools/im2rec.py:345-366 | with queues of capacity at least 1 some process can move until the writer has stopped |
| `PackPipeline.StepDecreasesMeasure` | tools/im2rec.py:345-366 | every step decreases a natural number |
| `PackPipeline.WrittenIsPrefix` | tools/im2rec.py:246-263 | at all times the output is a prefix of the sequential packing |
| `PackPipeline.FinishedIsComplete` | tools/im2rec.py:246-263 | when the writer stops everything is written and the buffer is empty |
| `PackPipeline.WriteWorker.Step` | tools/im2rec.py:246-263 | consecutive numbers leave the buffer up to the first that is missing, and a record is appended for each of them that has one, in order; nothing else changes |
| `PackPipeline.ReceiveDoes` | tools/im2rec.py:247-263 | the same about the specification of one pass |
| `PackPipeline.ExpectedIsPacked` | tools/im2rec.py:253-257 | the sequential packing holds one record, with number and encoding, for each item that could be encoded, in order |
| `PackPipeline.StepKeepsBounds` | tools/im2rec.py:346-361 | no queue exceeds its capacity and every reader only sees its own share |
| `PackPipeline.DrainRight` | tools/im2rec.py:253-263 | draining keeps the output equal to the sequential packing of the numbers passed and loses no number |
| `PackPipeline.WriteConserves` | tools/im2rec.py:247-263 | receiving a result moves its number from the queue to the writer, once |
| `PackPipeline.InitInv` | tools/im2rec.py:346-356 | the invariant holds at the start |
| `MakeList.Make` | tools/im2rec.py:104-121 | which images each list of each chunk holds; together they are the image list, in order, if and only if the shares fill a chunk or the rest is kept |
| `MakeList.FileIs` | tools/im2rec.py:107-121 | of the chunk the first images go to the test list, the next to the training list and the rest, if kept, to the validation list |
| `MakeList.ChunkSizeIsLeast` | tools/im2rec.py:105 | the chunk size is the least with which the chunks hold all images |
| `MakeList.ShareIs` | tools/im2rec.py:112-113 | a share is the whole part of its ratio of the chunk size |
| `MakeList.AllChunks` | tools/im2rec.py:104-121 | the same for the specification, for every length, chunk count and pair of ratios |
| `MakeList.NothingLost` | tools/im2rec.py:107-121 | chunk by chunk nothing is lost or repeated, short and empty chunks included |
| `MakeList.SomethingLost` | tools/im2rec.py:112-121 | a gap left by the truncated shares loses an image in the first chunk |
| `MakeList.HalvesLoseAnImage` | tools/im2rec.py:112-121 | ratios of one half write four of five images |
| `Json.RoundTrip` | include/mxnet/lib_api.h:650-653 | parsing what was printed gives the value back and stops at its end |
| `Json.ReadsBack` | include/mxnet/lib_api.h:751-806 | inside any larger text parse stops exactly at the end of the printed value |
| `Json.Parse` | include/mxnet/lib_api.h:751-770 | the index never goes back, advances past every value, and stops without one only at a closer or the end |
| `Json.ParseList` | include/mxnet/lib_api.h:715-729 | a list is incomplete only at the end of the text |
| `Json.ParseMap` | include/mxnet/lib_api.h:731-749 | a map is incomplete only at the end of the text |
| `Json.ItemsParse` | include/mxnet/lib_api.h:715-729 | printed items are read one after another into the list |
| `Json.EntriesParse` | include/mxnet/lib_api.h:731-749 | printed entries are read one after another into the map in key order |
| `Json.PartStands` | include/mxnet/lib_api.h:781-804 | where each part of a printed container stands in the text |
| `JsonTexts.TextIsRead` | include/mxnet/lib_api.h:686-770 | any text of quoted strings, ints that fit, lists and maps, with any filler between the parts, is read as its meaning, wherever it stands, and exactly to its end |
| `JsonTexts.ParseToJson` | include/mxnet/lib_api.h:650-653 | the same for a whole text |
| `JsonTexts.MapMeaning` | include/mxnet/lib_api.h:731-749 | a map text in any order of keys means the finite map of its pairs, the last value of a key winning, in strict key order |
| `JsonTexts.InsertIs` | include/mxnet/lib_api.h:742 | assigning to a key gives it the value, keeps every other entry, adds no other key and keeps the strict order |
| `JsonTexts.LastWins` | include/mxnet/lib_api.h:731-749 | pairs put in one after another make the map in which the last value of each key wins |
| `JsonTexts.StrLessIsLexicographic` | include/mxnet/lib_api.h:612-614 | string keys are in lexicographic order |
| `JsonTexts.StrLessTotal` | include/mxnet/lib_api.h:612-614 | which is irreflexive and total |
| `JsonTexts.StrLessTransitive` | include/mxnet/lib_api.h:612-614 | and transitive |
| `JsonTexts.DecimalPlaces` | include/mxnet/lib_api.h:701-713 | numbers are read in base ten |
| `JsonTexts.StandardIsReadable` | include/mxnet/lib_api.h:751-770 | every text of the grammar of RFC 8259, sections 4 to 7, without literals, signs, fractions and escapes, is read as its meaning |
| `JsonTexts.PrintedText` | include/mxnet/lib_api.h:772-806 | the printed form has commas between parts and a colon between spaces after keys |
| `JsonTexts.PrintedIsStandard` | include/mxnet/lib_api.h:772-806 | and obeys that grammar |
| `JsonHalting.ReaderFate` | include/mxnet/lib_api.h:650-653 | the reader halts, throws or hangs on a text exactly as one scan with a bracket stack says |
| `JsonHalting.ParseAgrees` | include/mxnet/lib_api.h:715-770 | recursive descent and scan agree from every index and every stack of open containers |
| `JsonHalting.ListHangs` | include/mxnet/lib_api.h:715-729 | the list loop is reported as hanging if and only if, turn by turn, it is never left |
| `JsonHalting.MapHangs` | include/mxnet/lib_api.h:731-749 | the same for the map loop |
| `JsonHalting.MismatchedCloserHangs` | include/mxnet/lib_api.h:767 | a brace met inside a list hangs the reader |
| `JsonReader.Read` | include/mxnet/lib_api.h:751-770 | the loop that advances the index computes the recursive descent |
| `JsonReader.ReadList` | include/mxnet/lib_api.h:715-729 | the list loop computes it |
| `JsonReader.ReadMap` | include/mxnet/lib_api.h:731-749 | the map loop computes it |
| `JsonReader.ReadString` | include/mxnet/lib_api.h:686-699 | the string loop computes it |
| `JsonReader.ReadNum` | include/mxnet/lib_api.h:701-713 | the digit loop computes it, throwing where the number does not fit an int |
| `JsonReader.Print` | include/mxnet/lib_api.h:772-806 | the printing loops build the printed form |
| `JsonSlices.GetDtypeAt` | include/mxnet/lib_api.h:589-597 | for every text the separator search as specified; on a printed int list, the printed element, and past the end what the search then finds |
| `JsonSlices.GetShapeAt` | include/mxnet/lib_api.h:572-580 | for every text the bracket search as specified; on a printed list of int lists, the printed element, which parses to that element, and past the end what the search then finds |
| `JsonSlices.DtypeOfDump` | include/mxnet/lib_api.h:589-597 | slicing element k of a printed int list gives the printed element k |
| `JsonSlices.ShapeOfDump` | include/mxnet/lib_api.h:572-580 | slicing element k of a printed list of int lists gives text that parses to element k |
| `JsonSlices.DtypeAtEveryIndex` | include/mxnet/lib_api.h:589-597 | for every index k into a printed list of n > 0 ints: element k modulo n, with the bracket when k is a positive multiple of n; it never throws |
| `JsonSlices.ShapeAtEveryIndex` | include/mxnet/lib_api.h:572-580 | for every index k into a printed list of n > 0 int lists, m being k modulo n + 2: element m if m < n, a throw if and only if m is n, the first element with an extra bracket if m is n + 1 |
| `JsonSlices.DtypeOfEmpty` | include/mxnet/lib_api.h:589-597 | the empty list: the empty text at index 0, the bracket at every other |
| `JsonSlices.ShapeOfEmpty` | include/mxnet/lib_api.h:572-580 | the empty list: a closing bracket at index 0, a throw at odd indices, the whole text at the other even ones |
| `JsonSlices.CommaSearch` | include/mxnet/lib_api.h:592-593 | where any number of searches for a comma ends up |
| `JsonSlices.BracketSearch` | include/mxnet/lib_api.h:575-576 | where any number of searches for an opening bracket ends up |
| `Serialize.DecodeEncode` | 3rdparty/onnx-tensorrt/serialize.hpp:46-108 | reading what was written gives the field and leaves what followed it |
| `Serialize.EncodeDecode` | 3rdparty/onnx-tensorrt/serialize.hpp:58-107 | what is read is a valid field whose bytes were exactly those consumed |
| `Serialize.EncodeBytes` | 3rdparty/onnx-tensorrt/serialize.hpp:54-97 | the bytes of a field one by one: plain values as they are, strings with a zero, vectors with an eight-byte count, lowest byte first, and then the elements |
| `Serialize.PowersOf256` | 3rdparty/onnx-tensorrt/serialize.hpp:89-93 | the weights of the count's bytes |
| `Serialize.SizesAreRight` | 3rdparty/onnx-tensorrt/plugin.cpp:85-90 | the declared size of any list of fields is the number of bytes written |
| `Serialize.DecodeAllEncodeAll` | 3rdparty/onnx-tensorrt/plugin.cpp:71-83 | any list of fields is recovered with nothing left over |
| `Serialize.EncodeAllDecodeAll` | 3rdparty/onnx-tensorrt/plugin.cpp:78-83 | whatever decodes is the encoding of what was decoded |
| `PluginCodec.SerializeValue` | 3rdparty/onnx-tensorrt/serialize.hpp:54-97 | writes the encoding at the position, nothing else, and advances by the declared size |
| `PluginCodec.SerializeVector` | 3rdparty/onnx-tensorrt/serialize.hpp:92-97 | writes length and elements at the position and nothing else |
| `PluginCodec.SerializePlugin` | 3rdparty/onnx-tensorrt/plugin.hpp:160-165 | fills a buffer of the declared size exactly |
| `PluginCodec.DeclaredSizeIsRight` | 3rdparty/onnx-tensorrt/plugin.hpp:166-172 | header and fields together take the declared size |
| `PluginCodec.Input.DeserializeValue` | 3rdparty/onnx-tensorrt/serialize.hpp:58-107 | reads one field through the advancing pointer, or stops where the assertion fails |
| `PluginCodec.PluginFactory.CreatePlugin` | 3rdparty/onnx-tensorrt/PluginFactory.cpp:35-55 | null, abort or plugin exactly as the header and the registered reader say; owned plugins grow by what was created only |
| `PluginCodec.PluginFactory.ReadFields` | 3rdparty/onnx-tensorrt/plugin.cpp:78-83 | reads the fields of a plugin one after another |
| `PluginCodec.HeaderBytes` | 3rdparty/onnx-tensorrt/plugin.hpp:160-165 | a serialized plugin begins with the four letters of the magic string and a zero, then the type name and a zero |
| `PluginCodec.CreationCases` | 3rdparty/onnx-tensorrt/PluginFactory.cpp:39-52 | when creation aborts, when it gives null, and when the plugin's reader decides |
| `PluginCodec.PluginRoundTrip` | 3rdparty/onnx-tensorrt/PluginFactory.cpp:35-55 | what was serialized for a registered plugin is created again with every field and no byte left |
| `PluginCodec.OnlyEncodingsCreate` | 3rdparty/onnx-tensorrt/PluginFactory.cpp:35-55 | a plugin is created only from its own encoding |
| `Dedup.Deduplicate` | include/mxnet/engine.h:291-309 | writes strictly increasing with the same elements; reads strictly increasing and equal to the old reads minus the writes |
| `Dedup.KeepElement` | include/mxnet/engine.h:303-306 | keeping an element overwrites nothing unread and keeps the compacted part right |
| `Dedup.SkipElement` | include/mxnet/engine.h:303-306 | skipping an element to be dropped keeps it right |
| `Dedup.HandleList.DropRepeats` | include/mxnet/engine.h:294-298 | unique and resize leave a strictly increasing list of the same elements |
| `Dedup.FoundOrAbsent` | include/mxnet/engine.h:302-303 | after the inner loop one comparison decides membership in the writes |
| `Rotation.ParallelRandom.GetNext` | src/resource.cc:363-372 | the slot is in bounds and the counter stays in range |
| `Rotation.ParallelRandom.GetMany` | src/resource.cc:363-372 | a run of calls hands out the slots the counter determines |
| `Rotation.ParallelRandom.SeedWithDeviceID` | src/resource.cc:337-343 | seeds and counter afterwards depend only on device, number of copies and seed |
| `Rotation.ParallelRandom.Replay` | src/resource.cc:337-372 | after reseeding, the sequence of slots and seeds handed out is a function of device, number of copies and seed |
| `Rotation.SeedOf` | src/resource.cc:312 | the seed is device + 16 * copy + 127 * global seed modulo 2^32 |
| `Rotation.SeedTellsGlobal` | src/resource.cc:312-339 | different 32-bit global seeds give every generator different seeds |
| `Rotation.WindowCoversAll` | src/resource.cc:363-372 | as many calls as slots hand out every slot once when no reset comes before the last |
| `Rotation.WindowCoversAllIff` | src/resource.cc:366-371 | and only then |
| `Rotation.SlotsAfterReset` | src/resource.cc:366-371 | after a reset the slots are one further than before |
| `Rotation.SeedsEqualIff` | src/resource.cc:311-312 | two (device, copy) pairs share a seed if and only if the devices are equal and the copies a multiple of 2^28 apart |

## Left out

- Importing graph inputs, marking graph outputs and returning user-requested tensors in `importModel`: calls into TensorRT around the node loop.
- What each op importer computes: importers are pure functions of the node and its input values; naming outputs and turning weights into tensors counts as part of them.
- Subgraphs.SupportsModel: the `back()` of an empty collection, which C++ leaves undefined, is modelled as doing nothing.
- TensorRT's bound of eight dimensions and 32-bit overflow of dimension products: shapes have any rank and unbounded positive dimensions, block sizes are positive.
- TensorRT, CUDA, cuDNN, ONNXIFI and protobuf: foreign code; a shuffle layer is taken to reshape and transpose, and the softmax layer to map slices along dimension 0 by some function that keeps their length.
- `insert_dim`, `remove_dim`, `remove_first_dim` of `trt_utils.hpp`: they would only add easy members.
- How `multiprocessing` queues move data: a put is atomic and a joined reader has delivered its results; exceptions that escape `image_encode` and kill a reader are not modelled.
- The single-threaded packing path, which writes without looking for failed encodings: the pipeline is compared with a sequential specification instead.
- MakeList.Make: ratios are non-negative real numbers, not floats, and a list file that is not written counts as empty; shuffling and writing the files are I/O.
- Json.Parse: the index is unbounded, where the source's is a 32-bit unsigned number; map keys that are lists, maps or errors are never less than another, because the comparison of the source is not an order there.
- Json.RoundTrip: is about maps with string keys in increasing order and strings without quotes, as printing neither escapes nor sorts.
- PluginCodec.Input.DeserializeValue: the product of element count and size does not wrap around, and a failed assertion stops the call.
- Serialize: vector lengths are 8-byte little-endian words.
- Dedup.HandleList.Sort: `std::sort` is represented by what it promises, with handles as numbers.
- Rotation.ParallelRandom.GetNext: calls are sequential; concurrent increments of the atomic counter are not modelled, nor is the plain `Seed`.
- Rotation.WindowCoversAllIff: sizes up to half the largest counter value, so that a window meets at most one reset.
- Everything else in the repository: operators, executors, training, language bindings, floating-point folding, command-line tools, dynamic library loading.
