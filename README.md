# Cell-Growth: the `CellArea` engine and the OpenCL error table

This project models the simulation engine of Cell-Growth's `CellArea` in
Dafny and proves properties of it. It also models the OpenCL status-code
table of `OpenCLWrapper`.

`CellArea` is a cellular automaton on a square grid of `W × W` cells.
`W` is a parameter here: at least 3 and divisible by 4, as both build
profiles (200 and 400) are. Each cell is `CANCER`, `HEALTHY` or
`MEDECINE`; `NONE` is a sentinel that no cell ever holds. The grid is split
into four partitions of `W/4` whole rows. One neighbour table, built for the
cells of the first partition, serves all four partitions through the local
index.

One tick does the following:

1. Medicine queued by clicks (`injectMedecine`) is injected into the first
   few neighbours of each queued cell. Each converted cell records its
   previous type and its offset from the queued cell.
2. Every partition is copied as a snapshot. The partitions are then updated
   one after the other:
   - the threshold rules read the snapshot (at least 6 cancer neighbours
     turn a healthy cell cancerous; at least 6 medicine neighbours cure a
     cancer cell and use those medicine cells up);
   - then every cell is counted, and medicine moves one step along its
     recorded offset.
3. The per-partition medicine maps are merged, and the counters are added
   up.

The modules follow the source:

| module | what it models |
|---|---|
| `Cells` | the value types of `CellArea.h`: `CellType`, the medicine record (`DefaultRecord` is the default `MedecineCell`), `PartitionStats` (`ZeroStats` is its default), and the colour of each state |
| `Grid` | the grid constants, C's truncating `/` and `%`, the offset table `s_NeighborIndexes`, the offset decoding, and `setNeighbor`'s neighbour lists |
| `Locate` | `getIndex`: the pure column/row search and the loop that performs it |
| `Rules` | the transition phase of `updateCellsInPartition`, as a fold over the partition |
| `Diffusion` | `moveMedecineCells` and the counting phase of `updateCellsInPartition` |
| `Injection` | the injection block of `onUpdate` |
| `Update` | the snapshots, the sequential run of the four partitions, the merge and the counter sums |
| `Engine` | the `CellArea` class, whose methods update its `types` array and its fields in place; each method is proved against the functions above |
| `CLErrors` | `getCLError` and `logCLError` |

Medicine whose step would leave the grid has no record after the tick.
`moveMedecineCells` (`CellArea.cpp:272-273`) gives the cell its previous
type back before the bounds test, unless that previous type is itself
`MEDECINE`, in which case the cell stays medicine. It then inserts a record
for the destination only when the step stays on the grid
(`CellArea.cpp:281-286`). The model does the same
(`Diffusion.MoveMedecineSpec`).

## Model

| member | source | states |
|---|---|---|
| Cells.PartitionStats.Count | Cell-Growth/src/CellArea.cpp:244-258 | visiting a cell raises exactly the counter of its type by one and leaves the other two alone; `NONE` has no counter, so the total grows by one for every real state and by nothing for `NONE` |
| Cells.PartitionStats.Plus | Cell-Growth/src/CellArea.cpp:191-193 | each of the three counters is added to its own running sum, so the totals add too |
| Cells.ColorOf | Cell-Growth/src/CellArea.h:49-51 | every state is drawn opaque; a state has no red component exactly when it is healthy (green), and no green component exactly when it is cancer (red) |
| Grid.PartitionGeometry | Cell-Growth/src/CellArea.h:45-47 | the four partitions cover the grid exactly, and each is a whole, non-empty number of rows of `W` cells |
| Grid.PartitionOf | Cell-Growth/src/CellArea.cpp:161 | a cell of the grid lies in one of the four partitions |
| Grid.LocalIndex | Cell-Growth/src/CellArea.cpp:155 | `i % P` is an index into the neighbour table, and `i` is its partition's base plus that index |
| Grid.NeighborOffsetsRowMajor | Cell-Growth/src/CellArea.h:53-55 | the table holds the 8 offsets `dy*W + dx` with `dx` and `dy` in {-1, 0, 1} in row-major order, all non-zero and pairwise distinct |
| Grid.DecodeNeighborOffsets | Cell-Growth/src/CellArea.cpp:320-322 | the xOffset/yOffset decoding gives back the `(dx, dy)` of every table entry when `W >= 3` |
| Grid.AdjacentViaOffset | Cell-Growth/src/CellArea.h:53-55 | two cells are Moore neighbours exactly when one is a table step away from the other and the column step stays inside the row |
| Grid.AdjacentShift | Cell-Growth/src/CellArea.cpp:155 | shifting both cells by whole rows keeps or breaks adjacency alike, so one table serves every partition |
| Grid.KeptMembers | Cell-Growth/src/CellArea.cpp:313-324 | a cell is pushed exactly when some offset passes `setNeighbor`'s test and the cell is that step away |
| Grid.KeptDistinct | Cell-Growth/src/CellArea.cpp:313-324 | distinct offsets push distinct cells, so a list has no duplicates |
| Grid.NeighborTestGeometric | Cell-Growth/src/CellArea.cpp:315-323 | `setNeighbor`'s test keeps an offset exactly when the step lands inside the first partition without wrapping to another row |
| Grid.NeighborsOfExactly | Cell-Growth/src/CellArea.cpp:311-326 | the list of a first-partition cell holds exactly its Moore neighbours inside the first partition: no wraparound |
| Grid.NeighborsOfShape | Cell-Growth/src/CellArea.cpp:311-326 | a neighbour list has at most 8 entries, all distinct |
| Grid.NeighborTableShape | Cell-Growth/src/CellArea.cpp:96-99 | every entry of the table is a local index of the partition (so no rule reads across a partition boundary), with at most 8 entries per list |
| Locate.FirstAtLeast | Cell-Growth/src/CellArea.cpp:331-357 | the bucket search returns the first bound not below the coordinate, or the number of bounds when every bound is below it |
| Locate.ColumnOf | Cell-Growth/src/CellArea.cpp:330-348 | the column is in `[0, W-1]`; a coordinate at or left of the first centre gives column 0; otherwise every centre up to the column is left of the coordinate, and the next one (if any) is not |
| Locate.RowOf | Cell-Growth/src/CellArea.cpp:349-357 | the row is in `[0, W-1]`; every row start before it is below the coordinate, and when it is not the last row, its own start is not |
| Locate.CellIndexOf | Cell-Growth/src/CellArea.cpp:358 | the returned index lies on the grid, with the column and row the two searches give |
| Locate.GetIndex | Cell-Growth/src/CellArea.cpp:328-359 | the search loops compute `CellIndexOf`, so the result is always a cell of the grid |
| Locate.SearchColumn | Cell-Growth/src/CellArea.cpp:330-348 | the column loop, with its three exits, computes `ColumnOf` (one to the left of the first centre not left of the coordinate) |
| Locate.SearchRow | Cell-Growth/src/CellArea.cpp:349-357 | the row loop computes `RowOf` (the row of the first row start not below the coordinate, else the last row) |
| Locate.RowGuardNeverFires | Cell-Growth/src/CellArea.cpp:355-356 | a row start `row * W` is never `W - 1`, so the second exit of the row loop cannot fire |
| Locate.FirstAtLeastMonotone | Cell-Growth/src/CellArea.cpp:331-357 | the bucket search is monotone in the coordinate |
| Locate.ColumnOfMonotone | Cell-Growth/src/CellArea.cpp:330-348 | a coordinate further right never gives a smaller column |
| Locate.RowOfMonotone | Cell-Growth/src/CellArea.cpp:349-357 | a coordinate further down never gives a smaller row |
| Rules.MedNeighbors | Cell-Growth/src/CellArea.cpp:210-216 | the collected cells are exactly the medicine neighbours in the snapshot, shifted to grid indices, one per medicine neighbour |
| Rules.CollectMedecine | Cell-Growth/src/CellArea.cpp:210-216 | the collecting loop computes `MedNeighbors`, and collects no more cells than there are neighbours |
| Rules.CountCancer | Cell-Growth/src/CellArea.cpp:231-233 | the counting loop computes the number of cancer neighbours in the snapshot |
| Rules.RulesPointwise | Cell-Growth/src/CellArea.cpp:204-240 | after the first `i` cells, each cell holds the value its transition gives: the value is decided by the snapshot, not by the order of the loop |
| Rules.ConsumedMembers | Cell-Growth/src/CellArea.cpp:218-225 | `updatedMedecine` after the rules holds exactly the medicine neighbours of the cured cancer cells |
| Rules.ConsumedAtMembers | Cell-Growth/src/CellArea.cpp:218-225 | one cell contributes exactly its medicine neighbours to `updatedMedecine`, and only when it is cured |
| Rules.ConsumedAreMedecine | Cell-Growth/src/CellArea.cpp:221-225 | every cell added to `updatedMedecine` is medicine in the snapshot and lies in the partition |
| Rules.TransitionRule | Cell-Growth/src/CellArea.cpp:204-240 | healthy with at least 6 cancer neighbours becomes cancer; cancer with at least 6 medicine neighbours becomes healthy, together with all those medicine cells, which are marked updated; any other cell is left as the phase found it |
| Rules.RulesStayInPartition | Cell-Growth/src/CellArea.cpp:212-236 | the rules of one partition write no cell outside it |
| Rules.RulesKeepNoNone | Cell-Growth/src/CellArea.cpp:204-240 | the rules never write `NONE` |
| Diffusion.MoveMedecine | Cell-Growth/src/CellArea.cpp:263-290 | a cell already in `updatedMedecine` (cured or already moved) or without a record is left entirely alone; any move leaves the counters alone, marks at most the moved cell as updated, and never changes or removes an entry already in the partition's map |
| Diffusion.MoveInGridGeometric | Cell-Growth/src/CellArea.cpp:275-282 | the bounds test passes exactly when the destination is on the grid and is a Moore neighbour: no wraparound |
| Diffusion.MoveInGridComplete | Cell-Growth/src/CellArea.cpp:275-282 | every on-grid Moore step passes the bounds test |
| Diffusion.MoveMedecineSpec | Cell-Growth/src/CellArea.cpp:263-290 | the cell gets its previous type back (or stays medicine); only an on-grid Moore step marks it updated, turns the destination into medicine and records the destination's prior type with the same offset; an off-grid step leaves no record; no other cell changes |
| Diffusion.Visit | Cell-Growth/src/CellArea.cpp:244-258 | visiting a cell counts it by the type it holds when visited |
| Diffusion.VisitPreserves | Cell-Growth/src/CellArea.cpp:242-260 | a visit keeps every cell non-`NONE` and the map well formed, and adds one to the total |
| Diffusion.SweepKeepsOk | Cell-Growth/src/CellArea.cpp:242-260 | the counting loop keeps every cell non-`NONE` and every record well formed |
| Diffusion.SweepCounts | Cell-Growth/src/CellArea.cpp:242-260 | the counting loop counts each of its cells exactly once |
| Diffusion.SweepKeepsEntries | Cell-Growth/src/CellArea.cpp:284-285 | the partition's map and `updatedMedecine` only grow, and an entry once inserted keeps its record (first insertion wins) |
| Injection.Target | Cell-Growth/src/CellArea.cpp:161 | the corrected target lies in the queued cell's own partition, at the listed local index |
| Injection.AsWrittenAgrees | Cell-Growth/src/CellArea.cpp:161 | the base as written agrees with the corrected one exactly when the queued cell is not the last of its partition |
| Injection.AsWrittenLeavesPartition | Cell-Growth/src/CellArea.cpp:161 | for the last cell of partition 0, the target as written lands in partition 1 |
| Injection.AsWrittenPastEnd | Cell-Growth/src/CellArea.cpp:161 | for the last cell of the grid, the target as written is past the end of the grid |
| Injection.TargetIsNeighbor | Cell-Growth/src/CellArea.cpp:155-161 | with the corrected base, every listed target is a Moore neighbour of the queued cell, reached by a step of the offset table |
| Injection.FanOutCount | Cell-Growth/src/CellArea.cpp:153-159 | with drawn count `n`, none of the listed cells is taken when `n <= 1`, and otherwise at most `n - 1`, because the counter is raised before the break test; it is exactly `n - 1` unless the list runs out first |
| Injection.Targets | Cell-Growth/src/CellArea.cpp:153-161 | the targets are the first `FanOutCount` entries of the queued cell's neighbour list, in list order (target `k` sits at local index `list[k]`): none when the draw is at most 1, fewer than the draw otherwise, at most 8, pairwise distinct, all on the grid |
| Injection.TargetsReachable | Cell-Growth/src/CellArea.cpp:153-161 | every target is a Moore neighbour of the queued cell |
| Injection.TargetsAreSteps | Cell-Growth/src/CellArea.cpp:153-161 | every target is a table step away from the queued cell |
| Injection.InjectOneOk | Cell-Growth/src/CellArea.cpp:162-166 | injecting into one neighbour keeps the grid free of `NONE` and every record well formed |
| Injection.InjectTargetsFacts | Cell-Growth/src/CellArea.cpp:155-166 | afterwards every target has a record; existing records are untouched; each new record is for a target, which is now medicine and records its prior type and `index - i`; no other cell changes |
| Injection.InjectTargetsOk | Cell-Growth/src/CellArea.cpp:155-166 | injection from one queued cell keeps the field well formed |
| Injection.InjectAllKeeps | Cell-Growth/src/CellArea.cpp:149-170 | draining the queue keeps the field well formed, never changes an existing record, and changes only the cells that get new records |
| Injection.InjectAllOrigins | Cell-Growth/src/CellArea.cpp:149-170 | every new record belongs to a medicine cell that is a Moore neighbour of some queued cell |
| Update.PartitionBounds | Cell-Growth/src/CellArea.cpp:179-180 | partition `p` starts at `p * P` and ends inside the grid |
| Update.UpdatePartitionCounts | Cell-Growth/src/CellArea.cpp:199-261 | updating a partition keeps the grid free of `NONE` and the map well formed, and counts exactly `P` cells |
| Update.Snapshots | Cell-Growth/src/CellArea.cpp:176-179 | four snapshots of `P` cells each |
| Update.SnapshotCells | Cell-Growth/src/CellArea.cpp:178-179 | snapshot `p` holds the cells of partition `p` as they were before any partition ran |
| Update.RunCounts | Cell-Growth/src/CellArea.cpp:176-185 | after partitions `0..p-1` ran, no cell is `NONE`, and every partition's map is well formed and has counted `P` cells |
| Update.MergeFirstWins | Cell-Growth/src/CellArea.cpp:186-190 | the merged map has a key exactly when some partition's map has it, with the record of the first partition that has it |
| Update.MergeOk | Cell-Growth/src/CellArea.cpp:186-190 | merging well-formed maps gives a well-formed map |
| Update.SumStatsTotal | Cell-Growth/src/CellArea.cpp:188-193 | partitions that each counted `n` cells sum to `n` cells per partition |
| Update.TickCounts | Cell-Growth/src/CellArea.cpp:172-195 | after a tick no cell is `NONE`, the merged map is well formed, and the counters add up to the number of cells |
| Engine.SeedCount | Cell-Growth/src/CellArea.cpp:82-84 | the number of seeded cancer cells is between a quarter and a half of the grid |
| Engine.FractionFloor | Cell-Growth/src/CellArea.cpp:84 | the truncated fraction of the minimum lies between 0 and the minimum |
| Engine.DrawSeeds | Cell-Growth/src/CellArea.cpp:85-94 | the drawing loop yields exactly `seeds` distinct cells of the grid |
| Engine.Enumerate | Cell-Growth/src/CellArea.cpp:151 | the hash set is visited in some order that lists each member exactly once |
| Engine.CellArea.constructor | Cell-Growth/src/CellArea.cpp:82-112 | exactly `SeedCount` distinct cells are cancer, all others healthy, the healthy counter is the rest of the grid, the neighbour table is built, and the medicine map and queue are empty |
| Engine.CellArea.InitCells | Cell-Growth/src/CellArea.cpp:96-112 | the cell loop builds the neighbour table, makes the drawn cells cancer and the rest healthy, and counts the healthy ones |
| Engine.CellArea.ListNext | Cell-Growth/src/CellArea.cpp:98-99 | a cell of the first partition gets its neighbour list; later cells leave the table alone |
| Engine.CellArea.SeedNext | Cell-Growth/src/CellArea.cpp:101-111 | a cell becomes cancer when drawn and healthy otherwise, and the healthy counter follows |
| Engine.CellArea.SetNeighbor | Cell-Growth/src/CellArea.cpp:311-326 | the offset loop appends `NeighborsOf` to the cell's list and changes no other list |
| Engine.CellArea.InjectMedecine | Cell-Growth/src/CellArea.cpp:361-364 | the cell under the position joins the queue; being a set, queuing a cell twice leaves one entry |
| Engine.CellArea.InjectPending | Cell-Growth/src/CellArea.cpp:149-168 | draining the queue, in the order returned, gives `InjectAll` and keeps the object valid |
| Engine.CellArea.InjectBuffer | Cell-Growth/src/CellArea.cpp:151-168 | the loop over the queue, in an order that lists it exactly once, computes `InjectAll` |
| Engine.CellArea.InjectNext | Cell-Growth/src/CellArea.cpp:151-167 | one iteration of the queue loop advances the state by one queued cell |
| Engine.CellArea.InjectAt | Cell-Growth/src/CellArea.cpp:153-167 | the neighbour loop for one queued cell computes `InjectTargets` over its targets |
| Engine.CellArea.InjectTarget | Cell-Growth/src/CellArea.cpp:161-166 | one target gets a record and turns medicine unless it already has a record |
| Engine.CellArea.ApplyRules | Cell-Growth/src/CellArea.cpp:204-240 | the rule loop computes `RulesUpTo` on the live types and `ConsumedUpTo` as `updatedMedecine` |
| Engine.CellArea.ApplyRuleAt | Cell-Growth/src/CellArea.cpp:206-239 | one iteration of the rule loop computes `RuleAt` and `ConsumedAt` |
| Engine.CellArea.Heal | Cell-Growth/src/CellArea.cpp:220-225 | the cured cell and all its collected medicine cells become healthy |
| Engine.CellArea.MoveMedecineCells | Cell-Growth/src/CellArea.cpp:263-290 | the in-place move computes `MoveMedecine` |
| Engine.CellArea.UpdateCellsInPartition | Cell-Growth/src/CellArea.cpp:199-261 | the two loops compute `UpdatePartition`: new types, counters and medicine map |
| Engine.CellArea.CountCell | Cell-Growth/src/CellArea.cpp:244-259 | one iteration of the counting loop computes `Visit` |
| Engine.CellArea.RunPartitions | Cell-Growth/src/CellArea.cpp:172-195 | the thread block and the merge compute `TickFrom`: new types, merged map, and counters raised by the partition sums |
| Engine.CellArea.TakeSnapshots | Cell-Growth/src/CellArea.cpp:176-179 | the copies equal `Snapshots` of the live types |
| Engine.CellArea.RunThreads | Cell-Growth/src/CellArea.cpp:180-185 | running the four partitions in order computes `RunUpTo` for all four |
| Engine.CellArea.RunThread | Cell-Growth/src/CellArea.cpp:180 | running partition `p` advances `RunUpTo` by one partition |
| Engine.CellArea.MergeResults | Cell-Growth/src/CellArea.cpp:186-195 | the map becomes `Merge` of the partition maps, and each counter grows by its partition sum |
| Engine.CellArea.OnUpdate | Cell-Growth/src/CellArea.cpp:137-197 | below a thirtieth of a second only the time grows; otherwise that much time is taken off, and one tick runs: the queue is drained and emptied, the state becomes `TickFrom` of the injected field, and the counters add up to the number of cells |
| Engine.CellArea.Tick | Cell-Growth/src/CellArea.cpp:143-195 | the counters are reset and then summed over the tick; the queue is drained and left empty; afterwards the counters add up to the number of cells |
| CLErrors.GetCLError | Cell-Growth/src/OpenCLWrapper.cpp:129-203 | a name exists exactly for the listed codes -1..-19, -30..-68 and -1000..-1005; every other code (success, positive codes and the gaps) gives the null pointer |
| CLErrors.NameRoundTrip | Cell-Growth/src/OpenCLWrapper.cpp:133-200 | every listed code's name leads back to that code, so each code has its fixed name |
| CLErrors.NamesDistinct | Cell-Growth/src/OpenCLWrapper.cpp:133-200 | distinct listed codes have distinct names |
| CLErrors.LogCLError | Cell-Growth/src/OpenCLWrapper.cpp:205-210 | a log line, carrying the name, the file and the line, is produced exactly when the table names the code |
| CLErrors.SuccessLogsNothing | Cell-Growth/src/OpenCLWrapper.h:40 | `CL_ASSERT` on `CL_SUCCESS` logs nothing |

## Left out

- OpenCL device, context, program and kernel setup, and teardown (`CellArea.cpp:7-80`, `120-135`): foreign calls with no logic to state. `positions` is a constructor parameter standing for the centres the GPU kernel computes.
- Reading the kernel source (`CellArea.cpp:292-309`): file I/O.
- The four `std::thread`s (`CellArea.cpp:172-185`) are not modelled as threads. All four snapshots are taken first, and then the partitions run one after another in index order. Interleavings of the threads' writes to the shared types are not modelled.
- `m_CurrentTime` and `UpdateTime` are `real`; float rounding is not modelled.
- The cell centres and the clicked position (`Locate.Vec2`) are `real` pairs, so NaN coordinates are not modelled. Every comparison with NaN is false, so in `getIndex` (`CellArea.cpp:331-357`) a NaN coordinate gives column 0 and row `W-1`.
- `Colors`, the colour constants and `m_CellSize`: the colour writes of the counting loop are not modelled, and `Cells.ColorOf` gives the colour of each state instead. `Renderer2D::setPointSize` and the `ELY_INFO` lines are rendering and logging.
- Engine.SeedCount: `Random::Float` becomes the `percentage` parameter in `[0, 1]`, and the float product is computed exactly before truncation.
- Engine.DrawSeeds: `Random::Integer(0, NumberOfCell)` is taken as a draw in `[0, NumberOfCell)`. The redraw-until-fresh loop is a choice of some fresh cell, so the sequence of draws is not modelled.
- `Random::Integer(1, 8)` in the injection is the `draw` function argument, giving each queued cell's count. Any integer is allowed, so the bound 1..8 is not assumed.
- Engine.Enumerate: the iteration order of `std::unordered_set` is left open. The queue loop is proved for every order that lists the queue exactly once, and the order used is returned.
- The 32-bit `unsigned int` counters and `uint8_t cancerCount` are natural numbers. Their values never exceed the number of cells, or 8, so no wrap-around is reached.
- The medicine map is a `map` keyed by cell. `equal_range` on a map yields at most one entry, so `moveMedecineCells`' loop over it is a single optional step.
- The stale declarations of `CellArea.h` (an array `m_MedecineCells`, a flat `m_Neighbors`, a field `Offset`, and the three unused `update...Cells` methods) are not modelled; the model follows their use in `CellArea.cpp`.
- Engine.CellArea.MergeResults sums into local variables and assigns the counters once after the loop; the final values are the same.
- CLErrors.CodeOfName is a reverse table written for the round-trip proof; the source has no such function. Names are compared as character sequences, not as C string pointers.
- Injection.Targets, Engine.CellArea.InjectAt, Engine.CellArea.OnUpdate and Engine.CellArea.Tick use the corrected partition base `(i / P) * P` of the finding below, not the base `((i + 1) / P) * P` that `CellArea.cpp:161` computes. The base as written is modelled by `Injection.TargetAsWritten`. With it, a queued cell with `i % P == P - 1` would write into the next partition with a record whose offset is not in the offset table, and `i == W*W - 1` would index past the grid. The tick model does not capture these out-of-partition or out-of-bounds writes.
- `Cell-Growth/src/Application.cpp` (UI and scene setup) is not part of this model.

## Findings

| source | as written | input that shows it | evidently intended | confidence | as-written member | corrected member |
|---|---|---|---|---|---|---|
| Cell-Growth/src/CellArea.cpp:161 | the injection target is `j + ((i + 1) / P) * P`, so the partition base is taken from `i + 1` | `i = P - 1` (the last cell of partition 0) with its left neighbour `j = P - 2` gives target `2P - 2`, in partition 1; `i = W*W - 1` gives a target past the end of the grid | the base of `i`'s own partition, `(i / P) * P`, so that every target is a Moore neighbour of `i` | high (not executed) | Injection.AsWrittenLeavesPartition, Injection.AsWrittenPastEnd | Injection.TargetIsNeighbor |
