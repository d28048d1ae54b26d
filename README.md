# custom-lifegame: a verified model of the world and the generation step

custom-lifegame is a browser Game of Life with editable rules. The plane is
unbounded and sparse. It is cut into 64x64 chunks, which are created on demand
and looked up by chunk coordinate. Next to the chunks, the world keeps
`blocksVector`, a flat list of the coordinates of live cells. A ticker runs one
synchronous generation whenever the game is started and `tickInterval`
milliseconds have passed. A generation works in four stages:

1. It collects every live cell and its eight neighbours as candidates.
2. It removes duplicate candidates.
3. It decides each candidate against the pre-step world: a live cell survives
   iff its neighbour count is in `live`, a dead cell is born iff its count is
   in `death`.
4. It writes all decisions back through `setBlock`.

The Dafny project models this core in seven modules:

- `Vectors` (`vectors.dfy`): integer grid coordinates with add, subtract,
  scale and `compare`, and two facts about coordinate lists: "no value listed
  twice" and "the set of listed values".
- `Chunks` (`chunk.dfy`): a class over a 64x64 `array2<bool>`, with the
  all-dead constructor, the point read and the point write.
- `Dedup` (`dedup.dfy`): `toUniqueVectorArray` as a nested loop that splices
  the list. It is proved against a first-occurrence specification.
- `Worlds` (`world.dfy`): the `World` class. It covers chunk coordinates and
  offsets, lookup, lazy chunk creation and `setBlock`'s list update. The class
  invariant is that a cell is live exactly when it is listed in
  `blocksVector`.
- `Life` (`life.dfy`): the generation step as functions, its candidate loop,
  and lemmas about what one step does.
- `Games` (`game.dfy`): the `Game` class with start/stop, the ticker and the
  imperative generation step. The generation step is proved against the
  `Life` functions.
- `Patterns` (`patterns.dfy`): the block and the blinker under the default
  rules.

The wall clock is a parameter: the ticker takes the current time `now` in
milliseconds.

Setting an already-live cell live again does not leave a single entry:
`setBlock` appends unconditionally (src/game.ts:148), so the cell is listed
twice. The model follows the code (`Worlds.SetLiveTwiceDuplicates`). For this
reason "no duplicates" is not a `World` invariant. It is a property that a
generation step preserves.

## Model

| member | source | states |
|---|---|---|
| Vectors.AddThenSubtract | src/game.ts:13-15 | translating by `v` and then subtracting `v` gives the vector back |
| Vectors.Vector2.Subtract | src/game.ts:16-18 | subtracting `v` and then adding `v` gives the vector back |
| Vectors.Vector2.Mul | src/game.ts:19-21 | for a positive factor `k`, floor division by `k` gives the scaled vector back |
| Vectors.ScaleDivides | src/game.ts:19-21 | multiplying an integer by a positive `k` and floor-dividing by `k` gives it back |
| Vectors.Vector2.Compare | src/game.ts:28-30 | `compare` is true exactly when both coordinates are equal |
| Chunks.Chunk.constructor | src/game.ts:64-73 | a new chunk is 64x64, has the given coordinate and fresh storage, and has every cell dead |
| Chunks.Chunk.EmptyReadsDead | src/game.ts:79-81 | `getBlock` on a chunk with no live cell (as the constructor leaves it) reads dead at every offset |
| Chunks.Chunk.SetBlock | src/game.ts:82-84 | the written cell reads back as written and every other cell of the tile keeps its state |
| Worlds.ToChunkVector | src/game.ts:115-120 | the chunk coordinate is the floor quotient: `c*64 <= v < c*64 + 64` in both axes |
| Worlds.Offset | src/game.ts:121-123 | the offset `v - c*64` lies in `[0, 64)` in both axes, and chunk times 64 plus offset gives `v` back |
| Worlds.OffsetInjective | src/game.ts:133-134 | within one chunk, distinct cells have distinct offsets (both directions) |
| Worlds.FloorDivMatchesToChunkVector | src/game.ts:158-161 | real division followed by floor, as `getChunkFromBlock` computes it, equals `toChunkVector` for every cell |
| Worlds.FindChunkIndex | src/game.ts:155-157 | `find` returns the first chunk whose coordinate matches, and returns none exactly when no chunk matches |
| Worlds.FindChunkIndexAppend | src/game.ts:162-163 | pushing a chunk never changes an earlier lookup; the new chunk is found only when nothing before it matched |
| Worlds.RemoveAll | src/game.ts:150 | the filter drops `v` and keeps the membership of every other value |
| Worlds.RemoveAllConcat | src/game.ts:150 | filtering a concatenation filters each part, so the kept entries stay in their original order |
| Worlds.RemoveAllEntry | src/game.ts:150 | on a single entry, the filter drops it exactly when it equals `v` |
| Worlds.RemoveAllMultiset | src/game.ts:150 | the filter removes exactly the copies of `v`: the multiset is the old one with `v`'s count set to zero |
| Worlds.RemoveAllAbsent | src/game.ts:150 | filtering out an absent value leaves the list unchanged |
| Worlds.RemoveAllNoDups | src/game.ts:150 | filtering keeps a duplicate-free list duplicate-free |
| Worlds.UpdatedBlocks | src/game.ts:147-151 | after the list update, `v` is listed iff it was set live, and every other value keeps its membership |
| Worlds.SetLiveTwiceDuplicates | src/game.ts:147-148 | setting a cell live twice adds two copies of it: the append is not idempotent |
| Worlds.World.constructor | src/game.ts:111-114 | a new world has no chunks, lists no cells and satisfies the invariant |
| Worlds.World.GetChunk | src/game.ts:155-157 | the result is a chunk of the world with the requested coordinate, and it is null exactly when no chunk has that coordinate |
| Worlds.World.GetChunkFromBlock | src/game.ts:158-161 | the chunk found from a cell is the chunk at `toChunkVector` of that cell |
| Worlds.World.GetBlock | src/game.ts:121-126 | a cell whose chunk was never created is dead |
| Worlds.World.AddChunk | src/game.ts:162-166 | the chunk is appended; chunk coordinates stay distinct; the cells of the new chunk read from it and all other cells keep their state |
| Worlds.World.WriteCell | src/game.ts:133-146 | finds or creates the chunk of `v` and writes the cell: `v` reads as written, no other cell changes, and a chunk is appended only when none had that coordinate |
| Worlds.World.SetBlock | src/game.ts:127-154 | the grid write of `WriteCell` plus the list update: `blocksVector` becomes `UpdatedBlocks` of the old list, and the invariant (live iff listed) is kept |
| Dedup.ToUniqueVectorArray | src/game.ts:173-182 | the spliced list is the list of first occurrences of the input, in order, and has no duplicates |
| Dedup.UniqueContents | src/game.ts:173-182 | the deduplicated list has no duplicates and holds the same values as the input |
| Dedup.UniqueOfNoDups | src/game.ts:173-182 | a list without duplicates is left as it is |
| Dedup.UniqueIsFirstOccurrences | src/game.ts:173-182 | the result equals an independent definition: keep an entry iff its value does not occur earlier |
| Dedup.UniqueAllEqual | src/game.ts:173-182 | a non-empty list whose entries are all equal becomes a single entry |
| Dedup.UniqueShortLists | src/game.ts:173-182 | the empty list and a singleton are left unchanged |
| Life.RoundVectorsAreMooreNeighbourhood | src/game.ts:228-237 | the eight offsets are distinct, and they are exactly the non-zero vectors with components in {-1, 0, 1} |
| Life.NeighboursAreMoore | src/game.ts:241-243 | the neighbours pushed for a cell are distinct and are exactly the cells other than it at most one step away in each axis |
| Life.CollectCandidates | src/game.ts:239-244 | the candidate loop builds, per live entry, the entry followed by its eight neighbours; a cell is a candidate iff it lies within one step of a live cell |
| Life.CandidateListIsRegion | src/game.ts:239-244 | a cell is in the candidate list iff it is within one step of a listed cell |
| Life.IndexOf | src/game.ts:262 | `indexOf` returns the first position of the value, and returns -1 exactly when the value is absent |
| Life.FarCellsAreQuiet | src/game.ts:239-257 | a cell that is not a candidate is dead and has no live neighbour |
| Life.FarCellsNeverBorn | src/game.ts:239-290 | a non-candidate cell is dead before and after a step, whatever `live` and `death` say, even when 0 is listed in `death` |
| Life.NextGenerationIsGlobalRule | src/game.ts:251-277 | when 0 is not a birth count, every cell of the plane follows the rule: next state iff the count is in `live` (live cell) or in `death` (dead cell) |
| Life.LastDecision | src/game.ts:251-277 | only candidates are written; a survivor is not written; any other candidate is written with its rule outcome, from the pre-step count |
| Life.ApplyUpdatesMembers | src/game.ts:288-290 | after the batch of writes, the last write to a cell decides whether it is listed; an unwritten cell keeps its membership |
| Life.StepBlocksMembers | src/game.ts:227-290 | after a step, a cell is listed iff it is in the next generation: within one step of a live cell and allowed by the rule on its pre-step state and count |
| Life.DecisionsShape | src/game.ts:259-277 | over distinct candidates the decisions write distinct cells, only candidates, and "live" only to cells that were dead |
| Life.ApplyUpdatesNoDups | src/game.ts:288-290 | writes to distinct cells that set only dead cells live keep a duplicate-free list duplicate-free |
| Life.StepBlocksNoDups | src/game.ts:239-290 | a duplicate-free `blocksVector` is still duplicate-free after a step |
| Games.Game.constructor | src/game.ts:183-210 | a new game is stopped, uses the clock reading as `lastTick`, interval 100, live [2, 3], death [3], four chunks at (0,0), (1,0), (1,1), (0,1), each with a new cell array, and has no live cell |
| Games.Game.Start | src/game.ts:211-213 | sets only `started`, after which `isStarted` is true |
| Games.Game.Stop | src/game.ts:214-216 | sets only `started`, after which `isStarted` is false |
| Games.Game.StoppedIsIdle | src/game.ts:217-224 | when `isStarted` reports false, no generation is due at any clock reading |
| Games.Game.Ticker | src/game.ts:221-294 | when stopped or not yet due, nothing changes; otherwise `lastTick := now` and one generation runs, with its effects on the list and on every cell, and duplicate-freedom is kept; chunks are only appended, each with a new cell array |
| Games.Game.Generation | src/game.ts:227-290 | the world's list becomes `StepBlocks` of the old one; every cell is live iff it is in the next generation of the old live set; cells outside the candidate region are dead before and after; chunks are only appended, each with a new cell array |
| Games.Game.Decide | src/game.ts:251-286 | the counting loop uses eight `getBlock` reads against the pre-step world and yields exactly `Decisions` for the candidates, in order |
| Games.Game.WriteUpdates | src/game.ts:288-290 | calling `setBlock` for each decision in order leaves `blocksVector` equal to `ApplyUpdates` of the old list; chunks are only appended, each with a new cell array |
| Patterns.NeighbourCountUnfolded | src/game.ts:252-257 | the neighbour count is the sum of the eight neighbour tests |
| Patterns.BlockIsStillLife | src/game.ts:189-190 | under the default rules the 2x2 block is unchanged by one step |
| Patterns.BlinkerRowBecomesColumn | src/game.ts:189-190 | under the default rules a horizontal row of three becomes the vertical column of three |
| Patterns.BlinkerColumnBecomesRow | src/game.ts:189-190 | under the default rules the vertical column of three becomes the horizontal row |
| Patterns.BlinkerHasPeriodTwo | src/game.ts:189-190 | two steps bring the horizontal blinker back to itself |

## Left out

- Rendering is not modelled. This covers `Chunk.graphic`, `Chunk.update`, `view.addChild` and the `toUpdateChunks` list built during a step (src/game.ts:75-77, 85-105, 164-165, 248, 259, 263, 267, 271, 274, 279-285, 291), because they only redraw and never change a cell.
- `setBlock`'s `view` and `update` parameters are rendering only and are dropped.
- `src/main.ts` is not part of this model. It is mouse, wheel and button wiring, with floating-point view transforms.
- `getMapVectorFromScreen`, `getScreenVectorFromMap`, `Vector2.div` with non-integer results, `ceil`, `toString`, `clone`, `set` and `blockSize` are not modelled: they only matter in pixel space. `getChunkFromBlock`'s division is modelled on reals followed by floor.
- `Date.now()` is not modelled. The constructor and `Ticker` take the clock reading `now` as a parameter.
- `tickInterval` is a `nat`. Fractional intervals set from the user interface are not modelled.
- Coordinates are unbounded integers. JavaScript numbers lose precision beyond 2^53, and that is not modelled.
- Dedup.ToUniqueVectorArray: the game splices a local array in place; the model returns the spliced sequence. Nothing else refers to that array, so no aliasing is lost.
- Worlds.World.AddChunk: requires that no chunk with that coordinate exists. The source does not check this, but all three call sites guarantee it: `setBlock` (src/game.ts:143) adds a chunk only after `getChunk` found none, the `Game` constructor (src/game.ts:208) adds four distinct coordinates, and `viewMoved` (src/main.ts:107-108) adds one only after `getChunk` found none. It also requires that the chunk's cell array is not already used by the world; every caller passes a `new Chunk(...)` (src/game.ts:141, 205; src/main.ts:108), whose array is new.
- Chunks.Chunk.SetBlock: requires an offset inside the tile. Out of range, the source throws a TypeError for a row index outside [0, 64) and silently writes an extra property for a column index outside it; neither is modelled, because both callers (src/game.ts:138, 142) pass `v - toChunkVector(v)*64`, which is in range.
- Chunks.Chunk.GetBlock: requires an offset inside the tile, for the same reason. Its only caller, `World.getBlock` (src/game.ts:125), passes an in-range offset; an out-of-range read (a TypeError for the row, `undefined` for the column) is not modelled.
