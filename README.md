# Caverns, heaps and shortest paths — a Dafny model

This project models the algorithmic core of a cavern-exploration game. A
hunter explores a grid cavern of tiles. First it looks for an orb (the *hunt*
stage). Then it has a fixed step budget to walk back to the exit while
picking up gold (the *scram* stage). The model covers these parts:

- **Two indexed binary heaps.**
  - `Heap` is a min- or max-heap. It keeps an array of (value, priority)
    elements and a value-to-index map in lockstep.
  - `InternalMinHeap` is a min-heap. It is a list plus a map to mutable
    (index, priority) records, and it bubbles by shifting elements into a
    hole.
- **Dijkstra's search over the cavern graph.** It comes in two forms:
  - `Path.shortest` returns the path;
  - `Cavern.minPathLengthToTarget` returns only the distance.
- **The cavern's parts.**
  - Edge wiring on the grid (`createEdges`).
  - The interior test and the minimum orb distance.
  - The text line format written by `serialize` and read back by
    `deserialize`.
- **The small graph classes** `Edge`, `Node`, `Tile` and `NodeStatus`.
- **The `GameState` stage machine.** Moves and steps are gated on the stage,
  and it handles the step budget, gold collection and the Manhattan distance
  to the orb.
- **The sample hunter `Pollack`.** Its greedy depth-first hunt and its scram
  along a shortest path both drive a `GameState`.

A graph is an abstract value, `map<NodeId, seq<Edge>>`: each node id maps to
its exits in order. Nodes are their ids; the game creates one `Node` object
per id. Specification functions in `Graphs` define the following:

- `IsPath`, `PathFrom`: whether a list of ids is a path;
- `Weight`: a path's weight, the sum of its edge lengths;
- `Reachable`;
- `WellFormed`: every exit starts at its node, ends at a node of the graph,
  and has a non-negative length;
- `Simple`: no node has two exits to the same node. `Caverns.CreateEdges`
  proves it for every cavern it wires; a cavern file read by `deserialize`
  may still list two exits to one node.

`Dijkstra` holds the correctness argument that both searches share: the
invariant, the poll step, the relaxation steps, the lower bound and the
closure. `HeapOrder` defines the pure sift-up and sift-down that both heaps
are proved to perform.

Each heap is a `class`. Its array or sequence fields are updated in place,
and `Valid()` ties the two structures together. Its methods are proved
against `Contents()`, the map from each value to its priority, and against
the pure `SiftUp`/`SiftDown`. For the sifts, lemmas prove that they permute
the elements and restore the heap order. The searches, the hunter and the
cavern loops are methods with loop invariants. The line format is made of
functions, and its central lemma `RoundTrip` states that deserializing what
`serialize` writes gives back the cavern.

Java exceptions are modelled as error results:
- `Result<T>` carries a value or an `Error`;
- `Outcome` is `Pass` or `Fail(Error)`.

The `Error` kinds are IllegalArgument, IllegalState, NoSuchElement,
OutOfSteps, IndexOutOfBounds, NumberFormat, NegativeArraySize and
NullPointer.

## Model

| member | source | states |
|---|---|---|
| PriorityHeap.Heap.constructor | src/app/Heap.java:42-46 | a new heap is empty, valid, has the requested mode and a backing array of length 10 |
| PriorityHeap.Heap.Size | src/app/Heap.java:120-122 | the size equals the number of values in the heap |
| PriorityHeap.Heap.Swap | src/app/Heap.java:126-142 | exchanges b[h] and b[k], re-points exactly those two values in the map, keeps the contents |
| PriorityHeap.Heap.CompareTo | src/app/Heap.java:152-156 | returns 0 exactly on equal priorities, non-negative exactly when p1 may sit above p2 (smaller in a min-heap, larger in a max-heap), and one of -1, 0, 1 |
| PriorityHeap.Heap.CompareToAntisymmetric | src/app/Heap.java:152-156 | swapping the arguments negates compareTo |
| PriorityHeap.Heap.CompareAt | src/app/Heap.java:164-166 | compareTo on the priorities at two array slots |
| PriorityHeap.Heap.EnsureCapacity | src/app/Heap.java:101-116 | doubles the array exactly when it is full, keeping b[0..size-1], the map and the contents; otherwise leaves the array alone |
| PriorityHeap.Heap.BubbleUp | src/app/Heap.java:173-195 | the array becomes SiftUp of the old array (stopping on ties), heap order holds again, contents unchanged |
| PriorityHeap.Heap.BubbleDown | src/app/Heap.java:218-234 | the array becomes SiftDown of the old array (left child on ties), heap order holds again, contents unchanged |
| PriorityHeap.Heap.WinningChildAt | src/app/Heap.java:223-228 | the child bubbleDown picks is the pure WinningChild of the array |
| PriorityHeap.Heap.Add | src/app/Heap.java:79-97 | fails with IllegalArgument, leaving everything unchanged, exactly when v is already present; otherwise size grows by one, v is present with priority p, the invariant holds and the array is SiftUp of the old one plus the new element |
| PriorityHeap.Heap.Peek | src/app/Heap.java:202-209 | NoSuchElement exactly when empty; otherwise the root b[0], a value of best priority, state unchanged |
| PriorityHeap.Heap.Poll | src/app/Heap.java:240-253 | NoSuchElement exactly when empty; otherwise returns a best value, removes exactly it, size falls by one, the invariant is restored, and the array is SiftDown of last-moved-to-root |
| PriorityHeap.Heap.UpdatePriority | src/app/Heap.java:258-270 | IllegalArgument exactly when v is absent; otherwise only v's priority changes; it sifts up when strictly better, down when worse, and nothing moves when equal |
| PriorityHeap.IndexedCount | src/app/Heap.java:16-34 | under the class invariant the map and the contents have exactly size entries |
| PriorityHeap.RootBest | src/app/Heap.java:16-34 | in a heap-ordered array the root's priority is best among all contents |
| PriorityHeap.SameContents | src/app/Heap.java:16-34 | two indexed arrays holding the same elements describe the same contents |
| HeapOrder.Exchanged | src/app/Heap.java:126-142 | exchanging two slots keeps the length and swaps exactly those two entries |
| HeapOrder.SiftUp | src/app/Heap.java:173-195 | sift-up keeps the length |
| HeapOrder.WinningChild | src/app/Heap.java:223-228 | the left or right child, the left one when priorities tie |
| HeapOrder.SiftDown | src/app/Heap.java:218-234 | sift-down keeps the length |
| HeapOrder.SiftUpPerm | src/app/Heap.java:173-195 | sift-up is a permutation of the elements |
| HeapOrder.SiftDownPerm | src/app/Heap.java:218-234 | sift-down is a permutation of the elements |
| HeapOrder.SiftUpOrdered | src/app/Heap.java:173-195 | sift-up from the one out-of-order slot restores heap order |
| HeapOrder.SiftDownOrdered | src/app/Heap.java:218-234 | sift-down from the one out-of-order slot restores heap order |
| InternalHeap.Elems | src/game/InternalMinHeap.java:165-173 | the list read through the Info records as (element, priority) pairs |
| InternalHeap.InternalMinHeap.constructor | src/game/InternalMinHeap.java:30 | a new heap is empty and valid |
| InternalHeap.InternalMinHeap.Size | src/game/InternalMinHeap.java:34-36 | the number of elements present |
| InternalHeap.InternalMinHeap.IsEmpty | src/game/InternalMinHeap.java:38-40 | true exactly when no element is present |
| InternalHeap.InternalMinHeap.GetSmallerChild | src/game/InternalMinHeap.java:154-162 | the left child when there is no right child or left ≤ right, else the right one; its priority is least among the children |
| InternalHeap.InternalMinHeap.BubbleUp | src/game/InternalMinHeap.java:103-124 | the hole-shifting loop performs SiftUp on the (element, priority) view, restores heap order and the index of every element |
| InternalHeap.InternalMinHeap.BubbleDown | src/game/InternalMinHeap.java:129-150 | the hole-shifting loop performs SiftDown, restores heap order and the index of every element |
| InternalHeap.InternalMinHeap.SmallerChildWins | src/game/InternalMinHeap.java:154-162 | getSmallerChild picks the same child as the pure WinningChild |
| InternalHeap.InternalMinHeap.Add | src/game/InternalMinHeap.java:45-54 | IllegalArgument, state unchanged, exactly when e is present; otherwise size grows by one, e maps to p and every index matches its slot |
| InternalHeap.InternalMinHeap.Peek | src/game/InternalMinHeap.java:61-64 | NoSuchElement exactly when empty; otherwise b[0], of least priority, state unchanged |
| InternalHeap.InternalMinHeap.RootLeast | src/game/InternalMinHeap.java:14-25 | in heap order the first element has the least priority |
| InternalHeap.InternalMinHeap.Poll | src/game/InternalMinHeap.java:70-82 | NoSuchElement exactly when empty; otherwise removes and returns a least element, its key disappears, size falls by one, and one element leaves b empty |
| InternalHeap.InternalMinHeap.ChangePriority | src/game/InternalMinHeap.java:87-98 | IllegalArgument exactly when e is absent; otherwise e's priority becomes p, sifting up when strictly lower, down otherwise (equality included) |
| Graphs.IndexTo | src/game/Node.java:52-57 | the first exit whose dest is q, or the end when none |
| Graphs.GetEdge | src/game/Node.java:52-57 | an exit with dest q exactly when one exists, otherwise IllegalArgument |
| Graphs.ExtendPath | src/app/Path.java:115-130 | appending an adjacent node extends the path and adds that edge's length to its weight |
| Graphs.WeightNonNeg | src/app/Path.java:28-30 | with non-negative lengths a path's weight is non-negative |
| Graphs.WeightPrefix | src/app/Path.java:28-30 | a prefix of a path is a path of no greater weight |
| Dijkstra.Start | src/app/Path.java:45-46 | the start alone at distance 0 satisfies the search invariant |
| Dijkstra.Poll | src/app/Path.java:47-48 | polling a frontier node of least distance settles it |
| Dijkstra.LowerBound | src/app/Path.java:28-30 | every path from the start weighs at least the least frontier distance, or at least the settled distance of its end |
| Dijkstra.Closure | src/app/Path.java:69-70 | once the frontier is empty every path's end is settled |
| Dijkstra.Unreachable | src/app/Path.java:69-70 | a node never settled is unreachable |
| Paths.GetPath | src/app/Path.java:100-110 | a list ending at end whose first node has no backpointer and where every node's backpointer is its predecessor |
| Paths.ChainIsPath | src/app/Path.java:100-110 | a backpointer chain is a path from the start whose weight is the recorded distance |
| Paths.PathSum | src/app/Path.java:115-130 | 0 for the empty and one-node path; the sum of edge lengths for a path; IllegalArgument when two consecutive nodes are not joined |
| Paths.Found | src/app/Path.java:50-51 | when end is polled, its chain is a path from v to end, [v] when v == end, and no path is lighter |
| Paths.Scan | src/app/Path.java:54-65 | the relaxation loop keeps the search invariant and the backpointer chains, only ever lowers a recorded distance, and settles nothing new |
| Paths.Shortest | src/app/Path.java:31-71 | empty exactly when end is unreachable; otherwise a path from v to end, [v] when v == end, and no path from v to end is lighter |
| Caverns.MinOrbDistance | src/game/Cavern.java:122-124 | (rows + cols) / 2 with Java's truncating division |
| Caverns.IsValidMeans | src/game/Cavern.java:236-238 | an interior point has all four neighbours on the grid; an on-grid point that is not interior lies on the border |
| Caverns.IsValid | src/game/Cavern.java:236-238 | an interior point lies on the grid, which then has at least three rows and three columns |
| Caverns.Wire | src/game/Cavern.java:225-228 | adding the two edges keeps the node set |
| Caverns.WireKeeps | src/game/Cavern.java:225-228 | the two edges, of one supplied weight, keep the graph symmetric and join a and b both ways |
| Caverns.WireStep | src/game/Cavern.java:225-228 | one supplier call and two addEdge calls, with the same guarantees; wiring a pair that had no exit between them keeps the graph Simple |
| Caverns.WireSimple | src/game/Cavern.java:225-228 | the two edges of one wiring add no second exit to the same node when the pair had none, and are the only new exits |
| Caverns.NotYetOwned | src/game/Cavern.java:212-223 | when the loops reach cell (i, j), neither its south nor its east neighbour has an exit to or from it yet |
| Caverns.WireCell | src/game/Cavern.java:214-229 | one open cell gets edges to its open south and east neighbours; the new exits join the cell to a grid neighbour, and the graph stays Simple |
| Caverns.CreateEdges | src/game/Cavern.java:209-233 | the nodes are exactly the open cells; edges are symmetric with equal weights, come from the supplier and join every adjacent pair of open cells the loops visit; every exit joins two grid neighbours (`NeighboursOnly`) and no node has two exits to the same node (`Simple`), since each neighbouring pair is wired once, on the turn of its upper or left cell; non-negative supplied weights give a well-formed graph |
| Caverns.FoundTarget | src/game/Cavern.java:380-381 | when the target is polled its weight is the least path weight from the start, and it is reached by a path of that weight |
| Caverns.RelaxExits | src/game/Cavern.java:385-397 | the relaxation loop keeps the invariant, only lowers weights, and settles nothing new |
| Caverns.PollNearest | src/game/Cavern.java:379 | the polled node has least weight, is removed from the heap, and becomes settled |
| Caverns.MinPathLengthToTarget | src/game/Cavern.java:374-400 | IllegalState exactly when the target is unreachable; otherwise the least path weight from start to target, 0 when start is the target |
| CavernFormat.DigitChar | src/game/Cavern.java:406-415 | the decimal digit character of a digit |
| CavernFormat.NatString | src/game/Cavern.java:406-415 | a non-empty string of digits |
| CavernFormat.IntString | src/game/Cavern.java:406-415 | a non-empty decimal, starting with '-' exactly for negative numbers |
| CavernFormat.ParseNumber | src/game/Cavern.java:426-428 | succeeds exactly on an optional '-' or '+' followed by at least one ASCII digit, denoting a value within range, and returns that value; NumberFormat otherwise |
| CavernFormat.ParseInt | src/game/Cavern.java:426-427 | Integer.parseInt: an int, NumberFormat otherwise |
| CavernFormat.ParseLong | src/game/Cavern.java:428 | Long.parseLong: a long, NumberFormat otherwise |
| CavernFormat.ParseRejects | src/game/Cavern.java:426-428 | the empty string, a lone sign, and a string with a character that is neither a digit nor a leading sign are rejected |
| CavernFormat.NatStringValue | src/game/Cavern.java:426-428 | reading back the digits of n gives n |
| CavernFormat.ParsePrinted | src/game/Cavern.java:426-428 | parsing a printed number in range gives it back |
| CavernFormat.ParseIntPrinted | src/game/Cavern.java:426-427 | Integer.parseInt inverts printing an int |
| CavernFormat.ParseLongPrinted | src/game/Cavern.java:428 | Long.parseLong inverts printing a long |
| CavernFormat.PrintedChars | src/game/Cavern.java:406-415 | a printed number holds none of the separators (',', ':', '='), and '-' only first |
| CavernFormat.Pieces | src/game/Cavern.java:424-425 | splitting at every separator gives at least one piece, the whole string when there is no separator |
| CavernFormat.DropEmptyTail | src/game/Cavern.java:424-425 | String.split drops trailing empty strings |
| CavernFormat.Split | src/game/Cavern.java:424-425 | String.split on one character; a string with no separator splits into itself |
| CavernFormat.PiecesPrefix | src/game/Cavern.java:424-425 | a separator-free prefix joins the first piece |
| CavernFormat.PiecesJoin | src/game/Cavern.java:412-414 | splitting joined pieces that contain no separator gives them back |
| CavernFormat.SplitJoin | src/game/Cavern.java:412-414 | split inverts Collectors.joining for separator-free, non-empty-ended parts |
| CavernFormat.JoinChars | src/game/Cavern.java:412-414 | joining adds no character other than the separator |
| CavernFormat.IndexOf | src/game/Cavern.java:436 | the first occurrence of the character, or -1 exactly when absent |
| CavernFormat.IndexOfAfter | src/game/Cavern.java:436 | the first '=' of info + "=" + rest, where there is none in info, is at the end of info |
| CavernFormat.At | src/game/Cavern.java:423 | list or array access: the element, or IndexOutOfBounds |
| CavernFormat.TypeName | src/game/Cavern.java:410 | a non-empty upper-case enum name |
| CavernFormat.TypeValueOf | src/game/Cavern.java:444 | Type.valueOf gives the type with that name, and IllegalArgument when none has it |
| CavernFormat.NameChars | src/game/Cavern.java:410 | type names contain no separator |
| CavernFormat.ExitTexts | src/game/Cavern.java:412-414 | one "otherId-length" text per exit, in order |
| CavernFormat.Lines | src/game/Cavern.java:404-418 | one header line and one line per node |
| CavernFormat.Serialize | src/game/Cavern.java:404-418 | the loop writes exactly Lines(c): the header "rows:cols,trgt:id" then each node's line |
| CavernFormat.ParseDims | src/game/Cavern.java:425-427 | rows and cols read as ints |
| CavernFormat.ParseTarget | src/game/Cavern.java:428 | the target id read as a long |
| CavernFormat.ParseHeader | src/game/Cavern.java:423-428 | the header gives two ints and a long |
| CavernFormat.NodeFields | src/game/Cavern.java:437-444 | id, row, col, gold and type read from the five fields within range |
| CavernFormat.NodeOfLine | src/game/Cavern.java:436-444 | a line without '=' fails with IndexOutOfBounds (substring with -1); a success has a long id and int row, column and gold |
| CavernFormat.FirstPass | src/game/Cavern.java:431-446 | no contract of its own: FirstPassRanges, FirstPassStep and FirstPassOf state what the first loop records |
| CavernFormat.FirstPassRanges | src/game/Cavern.java:431-446 | every id the first pass records is a long, with int row, column and gold |
| CavernFormat.ParseExits | src/game/Cavern.java:460-465 | one exit per "id-length" text |
| CavernFormat.ParseExit | src/game/Cavern.java:461-463 | an exit with a long id and an int length; a text without '-' is rejected |
| CavernFormat.LineId | src/game/Cavern.java:456 | the line's id read as a long |
| CavernFormat.NodeExitsAsWritten | src/game/Cavern.java:460 | reading nodeAndEdgeInfo[1] fails with IndexOutOfBounds when the split gave one part |
| CavernFormat.NodeExits | src/game/Cavern.java:460 | corrected: no exits text means no exits; otherwise as written |
| CavernFormat.ExitsOfLine | src/game/Cavern.java:455-465 | the line's id names a node of the first pass, whose tile lies on the grid; line 460 in the corrected reading, where nothing after '=' means no exits |
| CavernFormat.ExitsOfLineWith | src/game/Cavern.java:455-465 | either reading of line 460: the line's id names a node of the first pass, whose tile lies on the grid |
| CavernFormat.ReadingsOfLine | src/game/Cavern.java:460 | the two readings agree when the one as written succeeds, and on an accepted line differ exactly when split gave one part, the one as written then failing with IndexOutOfBounds |
| CavernFormat.SecondPass | src/game/Cavern.java:449-466 | no contract of its own (the corrected reading of line 460): SecondPassKeys, SecondPassStep and SecondPassOf state which exits each id collects |
| CavernFormat.SecondPassKeys | src/game/Cavern.java:456-458 | in either reading, only ids the first pass found collect exits |
| CavernFormat.SecondPassReadings | src/game/Cavern.java:449-466 | the second pass as written agrees with the corrected one whenever it succeeds |
| CavernFormat.AddExits | src/game/Cavern.java:464 | appends the exits to the node's exit list and changes no other node |
| CavernFormat.Load | src/game/Cavern.java:422-476 | deserialize with line 460 corrected: IndexOutOfBounds for an empty list; a success has positive rows, non-negative cols and an entrance |
| CavernFormat.LoadWith | src/game/Cavern.java:422-476 | either reading: IndexOutOfBounds for an empty list; a success has positive rows, non-negative cols and an entrance |
| CavernFormat.LoadAsWritten | src/game/Cavern.java:422-476 | deserialize as written: IndexOutOfBounds for an empty list, and whenever it succeeds it agrees with the corrected Load |
| CavernFormat.LoadReadings | src/game/Cavern.java:449-466 | the two readings of deserialize agree whenever the one as written succeeds |
| CavernFormat.FirstPassFails | src/game/Cavern.java:431-446 | past its first failing line, the first pass result no longer changes |
| CavernFormat.SecondPassFails | src/game/Cavern.java:449-466 | past its first failing line, the second pass result no longer changes |
| CavernFormat.FirstPassStep | src/game/Cavern.java:431-446 | one loop step: header lines are skipped, a bad line's error is the result, a node line records its tile |
| CavernFormat.SecondPassStep | src/game/Cavern.java:449-466 | one loop step: header lines are skipped, a bad line's error is the result, a node line adds its exits |
| CavernFormat.ReadNodes | src/game/Cavern.java:430-446 | the first loop computes FirstPass |
| CavernFormat.ReadExits | src/game/Cavern.java:448-466 | the second loop computes SecondPass, with line 460 corrected |
| CavernFormat.Deserialize | src/game/Cavern.java:422-476 | the method computes Load(lines), errors included, with line 460 corrected |
| CavernFormat.DimsRoundTrip | src/game/Cavern.java:406 | dimensions written are read back |
| CavernFormat.TargetRoundTrip | src/game/Cavern.java:406 | the target id written is read back |
| CavernFormat.HeaderRoundTrip | src/game/Cavern.java:406 | the header line is read back as (rows, cols, target) |
| CavernFormat.HeaderLine | src/game/Cavern.java:406 | no contract of its own: HeaderRoundTrip states that the header "rows:cols,trgt:id" reads back |
| CavernFormat.InfoChars | src/game/Cavern.java:409-410 | the node info fields contain no separator |
| CavernFormat.InfoSplit | src/game/Cavern.java:437 | splitting the node info gives its five fields |
| CavernFormat.FieldsRoundTrip | src/game/Cavern.java:437-444 | the five fields read back as the node's id and tile |
| CavernFormat.ExitRoundTrip | src/game/Cavern.java:413 | an exit text reads back as that exit |
| CavernFormat.ExitText | src/game/Cavern.java:413 | no contract of its own: ExitRoundTrip states that parseExit reads its "otherId-length" text back |
| CavernFormat.ParseExitsCons | src/game/Cavern.java:460-463 | reading exit texts one by one: the first text's exit, then the rest |
| CavernFormat.ExitsRoundTrip | src/game/Cavern.java:460-465 | the exit texts read back as the exit list |
| CavernFormat.ExitsTextSplit | src/game/Cavern.java:412-414 | the exits text is empty exactly when there are no exits, and splits into the exit texts otherwise |
| CavernFormat.LineSplit | src/game/Cavern.java:415 | splitting a node line at '=' gives info and exits parts |
| CavernFormat.NodeLine | src/game/Cavern.java:409-415 | a node line contains '=', and ends in '=' when the node has no exits |
| CavernFormat.LineCut | src/game/Cavern.java:436 | the first '=' of a node line ends its info |
| CavernFormat.FirstPassLine | src/game/Cavern.java:436-445 | the first pass reads a node line as that node's id and tile |
| CavernFormat.LineOf | src/game/Cavern.java:455-465 | a line whose id names an on-grid node of the first pass, with readable exits, is read as that id and those exits |
| CavernFormat.SecondPassLine | src/game/Cavern.java:455-465 | the second pass reads a node line as that node's id and exits |
| CavernFormat.TilesOfDistinct | src/game/Cavern.java:445 | with distinct ids each node's tile is recorded under its id |
| CavernFormat.FirstPassOf | src/game/Cavern.java:431-446 | a header and node lines give the map from ids to tiles |
| CavernFormat.SecondPassOf | src/game/Cavern.java:449-466 | a header and node lines give the map from ids to exits |
| CavernFormat.NodeLinesRead | src/game/Cavern.java:431-466 | each written node line is not the header and reads back in both passes |
| CavernFormat.LoadOf | src/game/Cavern.java:422-476 | a header and well-read node lines load the dimensions, target, tiles and exits |
| CavernFormat.RoundTrip | src/game/Cavern.java:404-476 | deserializing what serialize writes gives back the dimensions, the target, every node's tile and every node's exits |
| CavernFormat.NotInExitsOf | src/game/Cavern.java:449-466 | an id no node has gets no exits |
| CavernFormat.ExitsOfDistinct | src/game/Cavern.java:449-466 | with distinct ids every node's exits are recorded under its id |
| CavernFormat.NoExitsAsWrittenFails | src/game/Cavern.java:455-460 | a node without exits is written with a trailing '='; as written, reading it back fails with IndexOutOfBounds, while the corrected reading gives no exits |
| CavernFormat.NoExitsExample | src/game/Cavern.java:455-460 | a printable 1x1 cavern whose only node has no exits loads in the corrected reading but fails as written with IndexOutOfBounds |
| CavernFormat.NodeLineAsWritten | src/game/Cavern.java:455-460 | as written, a written node line reads back as that node when it has an exit and fails with IndexOutOfBounds when it has none |
| CavernFormat.ParsedLineAsWritten | src/game/Cavern.java:455-460 | a line the corrected pass accepts reads the same as written when its split has two parts and fails when it has one |
| CavernFormat.SecondPassAsWrittenFails | src/game/Cavern.java:449-466 | as written, the second pass fails with IndexOutOfBounds at its first line without exits |
| CavernFormat.LoadWithOf | src/game/Cavern.java:422-476 | after a good header and first pass, deserialize ends as the second pass does |
| CavernFormat.LoadAsWrittenOf | src/game/Cavern.java:422-476 | as written, well-read node lines load back when every node has an exit, and give IndexOutOfBounds otherwise |
| CavernFormat.AsWrittenRoundTrip | src/game/Cavern.java:404-476 | deserialize as written reads back what serialize wrote exactly when every node has an exit; one node without exits makes it throw IndexOutOfBounds |
| Edges.GetOther | src/game/Edge.java:34-39 | dest for src (tested first, so also for a self-loop), src for dest, IllegalArgument for any other node |
| Edges.MapThrough | src/game/Edge.java:26-30 | the isomorphic edge maps both endpoints and keeps the length |
| Edges.MapThroughGetOther | src/game/Edge.java:26-39 | getOther commutes with mapping through an injective isomorphism |
| Tiles.OpenTypes | src/game/Tile.java:17-27 | isOpen is false exactly for WALL |
| Tiles.IsOpen | src/game/Tile.java:17-27 | open exactly for FLOOR, ORB and ENTRANCE |
| Tiles.Tile.constructor | src/game/Tile.java:42-48 | the fields as given, gold not yet picked up |
| Tiles.Tile.Gold | src/game/Tile.java:51-53 | the gold amount before pickup, 0 after |
| Tiles.Tile.GetOriginalGold | src/game/Tile.java:56-58 | the original amount, whatever was picked up |
| Tiles.Tile.SetType | src/game/Tile.java:76-78 | changes only the type; gold unchanged |
| Tiles.Tile.TakeGold | src/game/Tile.java:81-85 | returns the current gold, after which gold() is 0; a second call returns 0; type and original gold unchanged |
| Nodes.SetAdd | src/game/Node.java:40-43 | LinkedHashSet.add: appends x when new, otherwise no change; keeps no duplicates |
| Nodes.Node.FromTile | src/game/Node.java:24-26 | the id is row * numCols + col, no edges |
| Nodes.Node.constructor | src/game/Node.java:29-38 | the given id and tile, no edges |
| Nodes.Node.AddEdge | src/game/Node.java:40-43 | adds e to the exits (re-adding is a no-op) and the other endpoint to the neighbours; IllegalArgument from getOther when the node is not an endpoint |
| Nodes.Node.GetEdge | src/game/Node.java:52-57 | an exit whose dest is q, IllegalArgument exactly when there is none |
| Nodes.Node.HashCode | src/game/Node.java:84-86 | Objects.hash(id): an int, 31 + id for small non-negative ids |
| Nodes.Node.Equals | src/game/Node.java:77-81 | equal exactly when the ids are |
| Nodes.EqualsById | src/game/Node.java:77-86 | equal exactly when the ids are equal, symmetric, and equal nodes hash alike |
| NodeStatuses.CompareTo | src/game/NodeStatus.java:32-35 | negative exactly when smaller by distance then id; 0 exactly when both are equal |
| NodeStatuses.CompareToOrder | src/game/NodeStatus.java:32-35 | swapping negates the sign, and the order is transitive |
| NodeStatuses.Equals | src/game/NodeStatus.java:39-43 | equal exactly when the ids agree |
| NodeStatuses.HashCode | src/game/NodeStatus.java:46-48 | Objects.hash(id), the same for all equal statuses |
| NodeStatuses.EqualsIsNotCompareZero | src/game/NodeStatus.java:32-43 | two statuses can be equal while compareTo is not 0 |
| JavaInt.Wrap32 | src/game/Node.java:84-86 | 32-bit wrap-around of the int arithmetic in Objects.hash: an int congruent modulo 2^32, the value itself when in range |
| JavaInt.JavaDiv | src/game/Cavern.java:122-124 | Java's division, truncating toward zero |
| JavaInt.Compare | src/game/NodeStatus.java:32-35 | Integer.compare / Long.compare: sign of x - y |
| JavaInt.Unsigned64 | src/game/Node.java:84-86 | a long read as unsigned 64 bits |
| JavaInt.LongHashCode | src/game/Node.java:84-86 | Long.hashCode is an int |
| JavaInt.ObjectsHash | src/game/NodeStatus.java:46-48 | Objects.hash of one long is an int |
| JavaInt.SmallLongHash | src/game/Node.java:84-86 | a small non-negative long hashes to itself; Objects.hash adds 31 |
| JavaInt.HashCollision | src/game/Node.java:84-86 | distinct ids can share a hash code |
| Games.GameState.constructor | src/game/GameState.java:122-148 | the initial state: HUNT at the entrance, no steps taken, the budget at Integer.MAX_VALUE, no gold, no outcome flags; the scram start node lies at the orb's row and column, as scram() later looks it up |
| Games.GameState.DistanceTo | src/game/GameState.java:395-398 | the Manhattan distance to the orb, non-negative, 0 exactly at the orb's row and column |
| Games.GameState.DistanceStep | src/game/GameState.java:395-398 | one step on the grid changes the distance by exactly 1 |
| Games.GameState.CurrentLocation | src/game/GameState.java:370-376 | the position in HUNT, IllegalState otherwise |
| Games.GameState.DistanceToOrb | src/game/GameState.java:403-410 | the Manhattan distance in HUNT, 0 exactly on the orb's tile, IllegalState otherwise |
| Games.GameState.Neighbors | src/game/GameState.java:381-392 | in HUNT, one status per distinct neighbour, in the order its first exit lists it, with its id and its distance to the orb; IllegalState otherwise |
| Games.NeighborIds | src/game/Node.java:39-42 | getNeighbors: exactly the destinations of the exits, each once, no more of them than exits |
| Games.ParallelExitsOnce | src/game/Node.java:39-42 | two parallel exits to one node list that node once among the neighbours |
| Games.GameState.MoveToId | src/game/GameState.java:351-366 | IllegalState outside HUNT; to an adjacent id the position moves there and stepsTaken rises by one; a non-adjacent id gives IllegalArgument and nothing changes |
| Games.GameState.CurrentNode | src/game/GameState.java:413-419 | the position in SCRAM, IllegalState otherwise |
| Games.GameState.GetExit | src/game/GameState.java:422-428 | the exit in SCRAM, IllegalState otherwise |
| Games.GameState.AllNodes | src/game/GameState.java:431-437 | the scram cavern's nodes in SCRAM, IllegalState otherwise |
| Games.GameState.StepsLeft | src/game/GameState.java:473-479 | the non-negative budget in SCRAM, IllegalState otherwise |
| Games.GameState.GrabGold | src/game/GameState.java:462-470 | in SCRAM on a tile with gold, adds exactly that gold and empties the tile; otherwise IllegalState and nothing changes |
| Games.GameState.MoveToNode | src/game/GameState.java:443-459 | IllegalState outside SCRAM, IllegalArgument to a non-neighbour, OutOfSteps when the edge is longer than the budget (nothing changes); otherwise moves, lowers the budget by the edge length, which stays non-negative, and picks up the gold there |
| Games.GameState.StartHunt | src/game/GameState.java:231-236 | stage HUNT, stepsTaken 0, position at the entrance; minHuntDistance is a lower bound on every path weight to the orb, attained by a path when the graph is Simple; IllegalState when the orb is unreachable |
| Games.GameState.EndHunt | src/game/GameState.java:241-259 | a hunter that errs sets huntErrored; one that returns succeeds exactly at the orb |
| Games.GameState.StartScram | src/game/GameState.java:287-298 | stage SCRAM at the node whose tile has the orb's row and column, minScramDistance is the least path weight to the exit, the budget is set, the starting tile's gold is picked up |
| Games.GameState.EndScram | src/game/GameState.java:299-320 | a hunter that returns succeeds exactly at the exit; running out of steps is not an error; any other failure sets scramErrored |
| Games.Picked | src/game/GameState.java:298 | the gold taken from a tile: all of it when positive, else nothing |
| Games.Abs | src/game/GameState.java:395-398 | the absolute value |
| Hunters.ChooseNext | src/app/Pollack.java:76-86 | the id of the first unvisited neighbour of strictly least distance, 0 when every neighbour is visited |
| Hunters.DestSet | src/app/Pollack.java:76-86 | the set of exit destinations |
| Hunters.FirstBestUnique | src/app/Pollack.java:76-86 | the chosen neighbour is unique |
| Hunters.StepBack | src/app/Pollack.java:93 | moving back to the caller's node; in a symmetric cavern the move back always succeeds |
| Hunters.Advance | src/app/Pollack.java:74-91 | either no move (0) with every unvisited neighbour explored, or a move to the chosen unvisited neighbour |
| Hunters.NeighborCount | src/game/GameState.java:381-392 | the number of statuses neighbors() returns is the number of distinct neighbours |
| Hunters.PendingBound | src/app/Pollack.java:76-86 | no more unvisited neighbours are pending than there are distinct neighbours, which bounds the loop of dfs |
| Hunters.NoneLeft | src/app/Pollack.java:87-88 | when 0 is chosen no unvisited neighbour remains |
| Hunters.Dfs | src/app/Pollack.java:70-97 | marks the node visited and the set only grows; stops at once on the orb; returns at the orb or back where it began; in a symmetric cavern no move fails; on return every neighbour was explored |
| Hunters.HuntOrb | src/app/Pollack.java:43-48 | the hunt never fails in a symmetric cavern and ends at the orb or at the entrance |
| Hunters.WeightStep | src/app/Pollack.java:131-136 | each move adds its edge length to the prefix weight |
| Hunters.StepTo | src/app/Pollack.java:135 | one move to a neighbour succeeds exactly when the budget covers the edge, lowering the budget by its length; OutOfSteps otherwise |
| Hunters.Walk | src/app/Pollack.java:131-136 | moves along the path, node by node; the budget falls by the path weight; succeeds when it fits; OutOfSteps otherwise |
| Hunters.Scram | src/app/Pollack.java:125-138 | walks a shortest path to the exit; IndexOutOfBounds (path.remove(0) on an empty list) exactly when the exit is unreachable; succeeds whenever some path fits the budget |
| Hunters.RunHunt | src/game/GameState.java:231-260 | the hunt stage with Pollack as hunter: fails exactly when the orb is unreachable, and in a symmetric cavern succeeds exactly when it ends at the orb |
| Hunters.RunScram | src/game/GameState.java:287-326 | the scram stage with Pollack as hunter: fails exactly when the exit is unreachable, and succeeds whenever the budget covers the shortest distance |

## Left out

- Threads, timeouts, the GUI, printing, file reading and the `main` entry
  point are not modelled. The time limits on the hunter are not part of this
  model.
- Priorities are mathematical integers, not `double`. Every caller passes an
  integer distance, so NaN and infinities never arise.
- Random cavern generation is not modelled: `digHuntCavern`,
  `generateGraph`, `getEntrancePoint` and `generateGoldValue`. The edge-weight
  `Supplier` of `createEdges` is a parameter `gen`, its n-th value `gen(n)`.
- Scoring is not modelled: `computeBonusFactor`, `getScore` and
  `minStepsToHunt`. `computeStepsToScram` is floating point, so its value is
  a parameter of `StartScram` and `RunScram`.
- `stepsTaken`, `goldCollected` and path sums are unbounded integers. The
  Java int overflow of these counters is not modelled, since a cavern never
  comes near it. `JavaInt.Wrap32` states the wrap-around for reference.
- Nodes are represented by their ids. Every reference comparison (`f == end`,
  `src == n`) is an id comparison, assuming the game creates one `Node` per
  id.
- Edges are values; in Java they are compared by reference.
  - `Nodes.Node.AddEdge`: with value equality, re-adding an equal but
    distinct edge object is a no-op in the model. In Java it would add a
    second edge.
- `getExits`/`getNeighbors` read-only views are sequences. Read-only is
  automatic for values.
- A cavern graph is a map from ids to exit lists. `HashSet` iteration order
  is not modelled: the order of nodes in `serialize` is the order of
  `CavernRec.nodes`. Exit order is the insertion order of the
  `LinkedHashSet` of edges.
- `Caverns.CreateEdges` works on a graph value of ids, not on `Node` objects
  changed in place.
- Paths.Shortest: optimality is stated for graphs with at most one exit
  between two nodes (`Simple`), which every cavern wired by createEdges
  satisfies (`Caverns.CreateEdges` ensures it). With parallel
  edges, `Weight` reads the first edge while the search may use a later one.
- Paths.Found: the same `Simple` condition is on optimality of the chain it
  returns, for the same reason.
- Caverns.MinPathLengthToTarget: the same `Simple` condition is on the
  existence of a path of exactly the returned weight. The lower bound holds
  for every graph.
- Caverns.FoundTarget: the same `Simple` condition is on the path of exactly
  the polled weight.
- Games.GameState.StartHunt: the same `Simple` condition is on the path of
  exactly `minHuntDistance`.
- Games.GameState.StartScram: the same `Simple` condition is on the path of
  exactly `minScramDistance`.
- Hunters.Scram: success whenever some path fits the budget is guaranteed
  under `Simple`, because it rests on the optimality of Paths.Shortest.
- Hunters.RunScram: success when the budget covers the shortest distance is
  guaranteed under `Simple`, through StartScram and Scram.
- Hunters.Dfs: "every neighbour explored" assumes that 0 is not a node id,
  because the Java code uses `wid == 0` as its "nothing left" sentinel.
- Hunters.Dfs: it succeeds for every symmetric cavern; a non-symmetric
  graph may make the move back fail.
- `Pollack.shortest`, `Pollack.getPath` and `Pollack.pathSum`
  (src/app/Pollack.java:143-238) are line-for-line copies of
  `Path.shortest`, `Path.getPath` and `Path.pathSum`. `Paths` models both
  copies.
- `Pollack.dfs1` (src/app/Pollack.java:52-68) is an unused variant and is
  not called. It is not modelled.
- Games.GameState.MoveToNode: the "neighbour" test is on the scram graph's
  exits of the current node.
- `deserialize` handles text only as the line format requires.
  - Parsing: `Integer.parseInt` and `Long.parseLong` are modelled as
    accepting an optional '-' or '+' followed by ASCII digits. The
    non-ASCII digits Java also accepts are not modelled.
  - Splitting: `String.split` is modelled for one-character separators,
    which are not regex metacharacters.
  - Exceptions: `ArrayIndexOutOfBounds` and `StringIndexOutOfBounds` are
    both `IndexOutOfBounds`.
  - Result: a success returns the dimensions, the target id, the tiles and
    the exits by id. It does not return the `Node[][]` grid filled with
    `WALL` nodes for the missing cells, and it does not build the
    `Cavern(...)` object.
  - The grid assignment `tiles[row][col]= n` is checked only for bounds.
  - A target id with no node is not modelled: Java's `null` target is
    accepted.
- CavernFormat.RoundTrip: it holds for printable caverns.
  - `Printable` asks for non-negative exit ids and lengths, because '-' is
    also the separator between them.
  - It asks for distinct node ids.
  - It asks for at least one row and an entrance, since the `Cavern`
    constructor looks for one.
- JavaInt.LongHashCode only states it is an int. `SmallLongHash` and
  `HashCollision` give its values where they matter.

## Findings

| source | as written | input that shows it | evidently intended | confidence | as-written member | corrected member |
|---|---|---|---|---|---|---|
| src/game/Cavern.java:460 | `nodeAndEdgeInfo[1]` is read after `nodeStr.split("=")`. For a node with no exits, serialize writes a line ending in "=", which `split` turns into one part because it drops trailing empty strings. The read then throws ArrayIndexOutOfBoundsException. | The 1x1 cavern whose only node is the line "0,0,0,0,ENTRANCE=" | A line with nothing after '=' describes a node without exits, so serialize and deserialize round-trip | not executed | CavernFormat.LoadAsWritten | CavernFormat.Load |
