# Random connected topology generator, modelled in Dafny

This project models `resources/graphGen.py`, the generator of random connected
network topologies written out as GraphML. It works on an n-by-n 0/1
adjacency table and runs four stages in sequence:

1. **Build.** `getAdj` makes an all-zero table. `fillGraph` draws once per
   unordered pair i < j and sets both entries of the pair when the draw
   succeeds.
2. **Find components.** `getComp` calls the recursive `DFS` on every node
   that is still unvisited. `DFS` marks nodes in a shared `visited` list and
   appends them to a component list. It counts an edge when either
   directional entry is set.
3. **Repair connectivity.** While more than one component is left,
   `makeConnected` does three things:
   - it pops two components at random positions;
   - it joins random node pairs between them;
   - it pushes a component back.
4. **Write.** `write` emits a fixed header, one node element per index, one
   edge element per set entry (i, j) with i < j in row-major order, and a
   fixed footer.

The table lives in an `array2<bool>`, with 0 as false and 1 as true. The
methods state their contracts over its value, `Snapshot(adj)`, a
`seq<seq<bool>>`. Every random outcome is an input:

- `fillGraph` takes `draws`, one boolean per pair in drawing order, standing
  for `random.random() < p`.
- `makeConnected` takes one `MergeChoice` per round: the two pop positions
  and, for each edge, the positions of its ends inside the two components.
  The number of edges is the length of that list.

The contracts therefore hold for every possible sequence of random outcomes.

Files:

- `tables.dfy`: tables and their snapshots.
- `paths.dfy`: paths and reachability. An edge counts in either direction.
- `lists.dfy`: lists of node lists.
- `components.dfy`: `DFS` and `getComp`.
- `builder.dfy`: `getAdj` and `fillGraph`.
- `repair.dfy`: `makeConnected`.
- `writer.dfy`: `write`, plus a reader for the same format.
- `options.dfy`: an option type.

Where the design description and the code disagree, the model follows the
code:

- **Edge count.** The code draws the number of edges per merge at random in
  [1, bound]. The design asks for exactly `bound` edges.
- **Where the union goes.** The code appends the new component at the end of
  the list. The design puts it back in place of the two it replaces.
- **Recursion.** `DFS` recurses. The design asks for an explicit stack.
- **Configuration errors.** The code raises no configuration error when
  n <= 0 or p lies outside [0, 1]. The design asks for one. In the model,
  `getAdj` of a negative n gives an empty table, as `range(n)` does.

Line 53 pushes back the wrong list. The model pushes back the union, which
the design asks for, and the finding below records the code as written.

## Model

| member | source | states |
|---|---|---|
| Builder.GetAdj | resources/graphGen.py:13-14 | A fresh table with max(n, 0) rows of that length and every entry 0. |
| Builder.FillGraph | resources/graphGen.py:16-25 | After the in-place loops, the table is the old table with both entries of every pair i < j set whose draw succeeded, and nothing else changed. |
| Builder.PairIndexInjective | resources/graphGen.py:20-22 | Different pairs i < j use different draws, so each pair is decided by one draw of its own. |
| Builder.FillSymmetric | resources/graphGen.py:20-23 | Filling a symmetric table leaves it symmetric. |
| Builder.FillZeroDiagonal | resources/graphGen.py:20-23 | Filling never sets a diagonal entry. |
| Builder.FillSetsDrawnPairs | resources/graphGen.py:20-23 | Filling clears no entry. Entry (i, j) and entry (j, i) end up set exactly when they were set before or the pair's draw succeeded. |
| Builder.BuiltTable | resources/graphGen.py:13-25 | `fillGraph(p, getAdj(n))` is symmetric with a zero diagonal. Its edges are exactly the pairs whose draw succeeded. |
| Builder.NoDrawsNoEdges | resources/graphGen.py:20-23 | If no draw succeeds (p = 0), the table stays all zero. |
| Builder.AllDrawsCompleteGraph | resources/graphGen.py:20-23 | If every draw succeeds (p = 1), every two distinct nodes are joined and no node is joined to itself. |
| Components.DFS | resources/graphGen.py:27-34 | `v` is appended first, right after the list passed in. The list gains exactly the nodes reachable from `v` through nodes that were unvisited on entry, each once. Those are exactly the nodes it newly marks visited. Marks are never removed. |
| Components.NewComponent | resources/graphGen.py:40-42 | What `DFS` collects from an unvisited node, while the visited nodes are closed under adjacency, is a full connected component. |
| Components.FinderStep | resources/graphGen.py:39-42 | One search from an unvisited node keeps three things: the lists found cover exactly the visited nodes, each once; each list is a component; the visited set is closed under adjacency. |
| Components.VisitedStep | resources/graphGen.py:39-42 | A search from the lowest unvisited node i leaves nodes 0..i visited and collects no node below i. |
| Components.FinderLoopStep | resources/graphGen.py:39-42 | The state of the `getComp` loop carries over from node i to node i+1 when node i is unvisited and searched. |
| Components.FinderDone | resources/graphGen.py:39-43 | Once every node is visited, the lists found are the connected components and cover every node exactly once. |
| Components.GetComp | resources/graphGen.py:36-43 | The result partitions 0..n-1 into the connected components of the table. Each list starts at its lowest node, and the lists are in ascending order of that node. |
| Components.PartitionExactlyOnce | resources/graphGen.py:36-43 | In a partition, every node below n lies in exactly one list and no list holds anything else. |
| Components.ComponentIsClosed | resources/graphGen.py:36-43 | A component found is closed under adjacency, and any two of its nodes are connected. |
| Components.OneComponentIffConnected | resources/graphGen.py:36-43 | On a non-empty table, `getComp` returns one list exactly when every two nodes are connected. |
| Repair.EdgeBound | resources/graphGen.py:49 | The upper end of the edge count is at least 1. Unless it is 1, it is at most half of each component's size. |
| Repair.EdgeBoundAsWritten | resources/graphGen.py:49 | Where line 49 under Python 3 yields a usable bound, that bound agrees with the integer-division bound. |
| Repair.Merged | resources/graphGen.py:46-53 | One round leaves one component fewer. |
| Repair.MergedAsWritten | resources/graphGen.py:52-53 | The round exactly as written also leaves one component fewer, so the loop still ends. |
| Repair.Pairs | resources/graphGen.py:49-50 | One node pair per drawn pair of positions. The first end lies in a and the second in b. |
| Repair.MergeEdges | resources/graphGen.py:49-50 | A round joins between 1 and `EdgeBound(len(a), len(b))` pairs. Each has one end in the first popped component and one in the second. |
| Repair.JoinPairs | resources/graphGen.py:49-51 | After the in-place edge loop, the table is the old table with entries (u, v) and (v, u) set for every drawn pair, and nothing else changed. |
| Repair.MakeConnected | resources/graphGen.py:45-54 | After the loop, the table and the list left are those of the round-by-round definition, one round per iteration. |
| Repair.MergeSplit | resources/graphGen.py:47-48 | The two pops take out two members of the list and keep every other member. Nothing is lost or duplicated. |
| Repair.MergedPartition | resources/graphGen.py:46-53 | With the union pushed back, every node is still in exactly one component after a round. |
| Repair.MergedInRange | resources/graphGen.py:46-53 | After a round, every node of every component is still a row of the table. |
| Repair.MergeDisjoint | resources/graphGen.py:47-48 | For components that partition the nodes, the two popped components share no node, and neither shares a node with any component left. |
| Repair.MergeEdgesNoLoop | resources/graphGen.py:49-51 | No pair joined in a round is a node with itself. |
| Repair.MergeEdgesAvoid | resources/graphGen.py:49-51 | No pair joined in a round touches a node of a component that was not popped. |
| Repair.AddEdgesIncludes | resources/graphGen.py:51 | Setting entries clears none. |
| Repair.AddEdgesSymmetric | resources/graphGen.py:51 | Setting both entries of each pair keeps the table symmetric. |
| Repair.AddEdgesZeroDiagonal | resources/graphGen.py:51 | Setting pairs that are not loops keeps the diagonal zero. |
| Repair.OtherStaysComponent | resources/graphGen.py:49-51 | A component not popped is still a component of the table with the new edges. |
| Repair.JoinedConnected | resources/graphGen.py:49-52 | After the new edges, any two nodes of a + b are connected. |
| Repair.JoinedClosed | resources/graphGen.py:49-52 | After the new edges, a + b is closed under adjacency. |
| Repair.JoinedIsComponent | resources/graphGen.py:49-52 | a + b is a connected component of the table with the new edges. |
| Repair.MergePreservesComponents | resources/graphGen.py:46-53 | A round turns the components of the table into the components of the table with the new edges. |
| Repair.ScheduleLength | resources/graphGen.py:46-53 | The loop runs `len(comp) - 1` times and leaves one component, or none when it starts with none. |
| Repair.RepairIncludes | resources/graphGen.py:45-54 | The repair clears no entry of the table. |
| Repair.RepairSymmetric | resources/graphGen.py:45-54 | The repair keeps the table symmetric. |
| Repair.RepairZeroDiagonal | resources/graphGen.py:45-54 | Starting from a partition of the nodes, the repair sets no diagonal entry. |
| Repair.RepairComponents | resources/graphGen.py:45-54 | Starting from the components of the table, the lists left are the components of the repaired table. |
| Repair.RepairConnects | resources/graphGen.py:45-54 | On a non-empty table, one component is left and it holds every node once. The repaired table is connected. |
| Repair.RepairedFindsOne | resources/graphGen.py:36-54 | Running the component finder on the repaired table gives exactly one component. |
| Repair.AsWrittenDropsFirst | resources/graphGen.py:52-53 | The round as written loses exactly the nodes of the first popped component. |
| Repair.AsWrittenLosesNode | resources/graphGen.py:52-53 | For components [0] and [1], the round as written leaves [[1]], which no longer covers node 0. |
| Repair.OddMinimumRejected | resources/graphGen.py:49 | Components of sizes 3 and 4 (or 5 and 9) give no bound as written, while the intended bound is 1 (or 2). |
| Writer.NatToString | resources/graphGen.py:60 | A node id is written in decimal, with digits only and no leading zero. |
| Writer.ParseNatToString | resources/graphGen.py:60 | Reading a written id back gives the number written. |
| Writer.ReadNodeElement | resources/graphGen.py:60 | A node element reads back as its index. |
| Writer.ReadEdgeElement | resources/graphGen.py:65 | An edge element reads back as its source and target. |
| Writer.EdgePairsMembers | resources/graphGen.py:62-65 | An edge element (u, v) is written exactly when u < v < n and entry (u, v) is set. |
| Writer.EdgePairsOrdered | resources/graphGen.py:62-65 | Edges are written in strictly ascending row-major order, so each undirected edge is written once. |
| Writer.Write | resources/graphGen.py:56-68 | The chunks written are: the header; node elements 0..n-1 in order; the edge elements in row-major order; the footer. |
| Writer.ReadWritten | resources/graphGen.py:58-67 | Reading a written file back gives the node count and the edge list in the order written. |
| Writer.Rebuild | resources/graphGen.py:62-65 | A symmetric table with a zero diagonal is rebuilt exactly from its written edges. |
| Writer.WrittenDeterminesTable | resources/graphGen.py:58-67 | Two symmetric, zero-diagonal tables with the same written file are equal. |

## Left out

- The `random` module and seeding (lines 17-18) are not modelled. The outcomes of the draws, pops and endpoint choices are inputs, so their distribution and the seed are outside the model. `if seed:` treats a seed of 0 as no seed; this is not modelled either.
- The edge probability `p` is visible only through the draw outcomes.
- Opening, naming and closing the output file (lines 57 and 68) are not modelled. The file is the sequence of chunks handed to `f.write`.
- The module-level driver (lines 70-79) is not modelled as a method. `Repair.RepairedFindsOne` states what the driver's composition guarantees.
- Components.DFS: the component list is modelled as a value returned by each call. In the source, `temp` is one list that is appended to in place and returned. Python's recursion-depth limit is also not modelled.
- Builder.FillGraph: the source also returns the same `adj` object. The alias is not modelled; the method updates the array in place.
- Repair.MakeConnected: the precondition requires that every choice lies in range and that every component is non-empty. The source would raise `IndexError` on out-of-range choices or an empty component, and that error path is not modelled. The components `getComp` returns always meet the precondition.
- Repair.EdgeBoundAsWritten: models Python 3.10 and 3.11, where `randint` accepts an integral float and rejects a non-integral one. From Python 3.12, any float upper end raises.

## Findings

| source | as written | input that shows it | evidently intended | confidence | as-written member | corrected member |
|---|---|---|---|---|---|---|
| resources/graphGen.py:52-53 | `a.extend(b)` then `comp.append(b)`: the extended `a` is dropped and only `b` goes back | components [[0], [1]], both pops at position 0: the list becomes [[1]] and node 0 is in no component | push back the union, so the last component holds every node | high; not executed | Repair.AsWrittenLosesNode | Repair.MergedPartition |
| resources/graphGen.py:49 | `min(len(a),len(b))/2` is true division in Python 3, so `randint(1, 1.5)` raises | components of sizes 3 and 4 | integer division, `min(len(a),len(b))//2` | medium (depends on the interpreter version); not executed | Repair.OddMinimumRejected | Repair.EdgeBound |
