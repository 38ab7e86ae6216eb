# Street tile streaming, modelled in Dafny

The street of the game is an endless road. It is paved lazily, tile by tile,
around the player. The system `ensure_tiles_spawned` runs once per frame and
does the following:

1. It takes the player's horizontal position (world `x` and `z`), divides each
   axis by the 2.0-unit tile size and casts the quotient to `i32`. This gives
   the centre cell. The cast truncates toward zero and saturates at the `i32`
   bounds.
2. It walks the 7x7 window of offsets `dy` (outer loop) and `dx` (inner loop),
   each running over -3..=3.
3. It skips every candidate whose absolute row `y` lies outside `[-1, 1]`.
   This keeps the road three tiles wide.
4. If the `StreetTiles` registry, a map from cell to entity, has no entry for
   the candidate, it spawns one tile entity and records its handle. A cell that
   is already present is left alone.

The model has five modules:

- `Grid` (`grid.dfy`) defines cells, the lane band and the window. It also
  models the position-to-cell conversion: truncation toward zero, followed by
  `i32` saturation.
- `Registry` (`registry.dfy`) defines the registry. `Street` holds the tile map
  and the world's entity allocator. `Visit` is the loop body: the lane filter
  plus insert-if-absent. `Fill` visits a sequence of candidates in order. The
  module also holds the lemmas about `Fill`.
- `Streaming` (`streaming.dfy`) defines the candidate window in loop order and
  the pure per-tick function `Tick`. It also holds the imperative method
  `EnsureTilesSpawned`, whose nested loops are proved equal to `Tick`. The
  remaining members are the per-call and multi-call properties: coverage,
  locality, no overwrite, spawn count, idempotence, and the lane and
  handle invariants over any path.
- `Bounds` (`bounds.dfy`) proves the spawn-count bound (at most 21) and the
  "window misses the road" case.
- `Examples` (`examples.dfy`) covers a few concrete positions and the worked
  example. That example is centre (0,0) on an empty registry, which spawns 21
  tiles, then centre (3,0), which spawns 9 more.

`commands.spawn(..).id()` is modelled as an allocator counter, `nextEntity`.
Each spawn returns the counter's current value and then advances it, so every
handle a spawn returns is fresh. Positions are exact `real` numbers rather than
`f32`.

## Model

| member | source | states |
|---|---|---|
| Grid.Trunc | src/street.rs:35-38 | the cast rounds toward zero: the result has the sign of the quotient, lies no farther from zero than it, and is less than one away from it |
| Grid.TruncVersusFloor | src/street.rs:35-38 | truncation equals the floor except on negative non-integers, where it is the floor plus one |
| Grid.TruncIsOdd | src/street.rs:35-38 | truncation toward zero, taken before the `i32` saturation, is odd: the quotients q and -q truncate to n and -n (so -1.5 and 1.5 both truncate to 0) |
| Grid.SaturateI32 | src/street.rs:35-38 | the float-to-`i32` cast stays within the `i32` bounds, leaves in-range values unchanged and clamps the rest to the nearer bound |
| Grid.CellOf | src/street.rs:35-38 | one axis of the centre cell is an `i32`, and it is non-negative for non-negative positions and non-positive for non-positive ones |
| Grid.CellOfSpan | src/street.rs:35-38 | for a cell n strictly inside the `i32` range (I32Min < n < I32Max): a position maps to cell n > 0 exactly when it is in [n·size, (n+1)·size), to cell n < 0 exactly when it is in ((n-1)·size, n·size], and to cell 0 exactly when it is in (-size, size) |
| Grid.CentreCell | src/street.rs:34-38 | the centre cell has `i32` components, and any position within one tile width of the origin on an axis maps to 0 on that axis |
| Registry.Empty | src/street.rs:23-24 | the default registry has no tiles |
| Registry.Spawn | src/street.rs:46-62 | recording a spawned tile adds exactly its cell, stores the freshly allocated handle there, advances the allocator by one, keeps every other entry and keeps handles fresh and distinct |
| Registry.Visit | src/street.rs:44-64 | one loop step adds its cell to the keys exactly when the cell is on the road, keeps every existing entry, and spawns exactly when the cell is on the road and absent |
| Registry.FillExtends | src/street.rs:45-63 | visiting any sequence of candidates never removes or overwrites an entry |
| Registry.FillKeys | src/street.rs:40-66 | after visiting a sequence of candidates, the keys are exactly the old keys plus the road cells among the candidates |
| Registry.VisitSpawnCount | src/street.rs:45-63 | if the allocator has advanced once per key added since an earlier state, one more loop step keeps that true |
| Registry.FillSpawnCount | src/street.rs:45-63 | the number of spawns equals the number of keys that were not there before |
| Registry.FillValid | src/street.rs:45-63 | if every handle was allocated and no two tiles share one before the calls, the same holds after |
| Registry.FillIdle | src/street.rs:45 | when every road candidate is already recorded, visiting them changes nothing |
| Streaming.Candidates | src/street.rs:40-43 | the window has 7·7 = 49 candidates |
| Streaming.CandidateAt | src/street.rs:40-43 | the loop step with offsets (dx, dy) visits cell (cx+dx, cy+dy), the candidate at position (dy+3)·7 + dx+3 |
| Streaming.CandidatesIff | src/street.rs:40-43 | a cell is a candidate exactly when it lies within 3 of the centre on both axes |
| Streaming.NeededIff | src/street.rs:40-44 | a cell must be paved exactly when it is in the window and its row is in [-1, 1] |
| Streaming.EnsureTilesSpawned | src/street.rs:26-67 | the nested loops compute `Tick` of the player's centre cell: the new keys are the old keys plus the road cells of the window, old entries are unchanged, and the returned spawns are distinct previously absent cells, each holding the next allocated handle in order |
| Streaming.TickKeys | src/street.rs:40-66 | a call adds exactly the road cells of the window to the key set |
| Streaming.TickCoverage | src/street.rs:40-47 | after a call, every road cell of the window is a key |
| Streaming.TickLocality | src/street.rs:40-46 | every key a call adds is a road cell of the window |
| Streaming.TickNoOverwrite | src/street.rs:45-63 | a call keeps every old key with its old handle |
| Streaming.TickSpawnCount | src/street.rs:40-45 | a call spawns exactly once per road cell of the window that was absent before |
| Streaming.TickIdempotent | src/street.rs:45 | a second call with the same centre spawns nothing and leaves the state as it was |
| Streaming.TickPreserves | src/street.rs:44-63 | a call keeps handles fresh and distinct, and keeps every key on the road |
| Streaming.RunInvariant | src/street.rs:23-44 | from the default registry, for any sequence of centre cells, no key is ever off the road and no handle stands for two tiles |
| Streaming.RunMonotonic | src/street.rs:45-63 | over any sequence of calls the key set only grows and old entries keep their handles |
| Bounds.NeededInBand | src/street.rs:40-44 | the road cells of a window lie among the window's seven columns on road rows -1..1, and they are all of those cells when the centre row is within 2 of row 0 |
| Bounds.TickSpawnBound | src/street.rs:40-45 | one call spawns at most 21 tiles, and exactly 21 on an empty registry when the centre row is within 2 of row 0 |
| Bounds.NeededEmptyIff | src/street.rs:40-44 | the window contains no road cell exactly when the centre row is 5 or more away from row 0 |
| Bounds.TickFarFromRoad | src/street.rs:40-45 | a call whose centre row is 5 or more away from row 0 spawns nothing and changes nothing |
| Bounds.BandSize | src/street.rs:40-44 | a band of n columns across the three road rows has 3·n cells |
| Examples.CellExamples | src/street.rs:35-38 | x = 1.5 and x = -1.5 both map to cell 0, -2.5 maps to -1, and the position (6.5, 0, 0) maps to centre (3, 0) |
| Examples.FirstCall | src/street.rs:40-47 | the first call at centre (0,0) on an empty registry records exactly columns -3..3 of the road and spawns 21 tiles |
| Examples.MoveRight | src/street.rs:40-47 | from that state, a call at centre (3,0) adds exactly columns 4..6 of the road, which is 9 tiles |
| Examples.WorkedExample | src/street.rs:40-47 | the two calls together spawn 30 tiles |

## Left out

- Bevy ECS plumbing (`Commands`, `ResMut`, the player `Query`, mesh and material construction, the `Affine2` UV transform, `src/street.rs:13-21`, `49-61`) is left out. A spawn is modelled only as "returns a fresh handle", through the `nextEntity` counter.
- The tile's world transform `x as f32 * GRID_WIDTH` (`src/street.rs:60`) only places the rendered cuboid. It has no effect on the registry.
- `q.single()` panics unless exactly one player exists (`src/street.rs:34`). In the model the player position is simply a parameter.
- `f32` arithmetic is not modelled. Positions are exact reals, so the rounding of the float division before the cast is not modelled, and neither is a NaN position, which the cast would send to 0.
- The `i32` additions `grid_loc.x + dx` and `grid_loc.y + dy` (`src/street.rs:42-43`) are modelled over unbounded integers. They overflow only when the centre cell is within 3 of the `i32` bounds, which needs a position beyond about 4.29e9 world units.
- `SPAWN_DISTANCE_TILES` (`src/street.rs:11`) is declared but never read. The model follows the loops' hard-coded radius of 3.
- The `run_if(in_state(GameState::Running))` gate and the asset-loading state machine (`src/main.rs:13-37`) decide whether the system runs at all. They are not modelled.
- Other systems' spawns (player, cars, lantern children) also advance the world's entity allocator. The model advances `nextEntity` only for tiles. Any extra advance keeps `Registry.Valid`, because that predicate only needs recorded handles to lie below the counter.
- `src/main.rs`, `src/lantern.rs` and `src/assets.rs` (movement, camera, cars, lights, lantern children, the asset collection) are outside this core.
- Tile eviction is not modelled, because the source never removes an entry. The error taxonomy for a missing player or unready assets is not modelled either, because the source implements neither.
