# Grid simulations and quadtree, modelled in Dafny

This project models the simulation core of a small WebGL playground written in
Rust:

- The two coordinate encoders, `LoopingEncoder` and `FlatEncoder`. They map grid
  coordinates to row-major indices and back.
- Conway's Game of Life. Its grid wraps at the left, bottom and top edges but
  not at the right edge: column `w` spills onto column 0 of the next row.
- The falling-sand simulation. It has a tile list, a cell-to-tile map, a spawn phase
  that drops water into the top row, and the sand and water movement rules.
- The point quadtree the flocking simulation uses to find neighbours.

Each Dafny module follows one source file:

| module | file | models |
|---|---|---|
| `MachineInts` | (shared) | `i32`, `u32` and `i16` ranges, and the wrap of `as u32` / `as usize` casts |
| `Wrappers` | (shared) | `Option` |
| `CoordinateEncoder` | `packages/webgl/src/utils/coordinate_encoder.rs` | decode, the flat encoder, the looping encoder |
| `GameOfLife` | `packages/playground/src/simulations/gol.rs` | new, decode, encode, neighbour count, update, and a wrapping encoder for comparison |
| `Tiles` | `packages/webgl/src/simulations/falling_sand.rs` | `Tile`, `TileStorage` new, get, get_index, insert, swap |
| `FallingSand` | `packages/webgl/src/simulations/falling_sand.rs` | `FallingSand::update`: spawn and movement |
| `Quadtrees` | `packages/playground/src/quadtree.rs` | `Rectangle` contains and intersectCircle; `Quadtree` new, reset, subdivide, insert, query, set_dimensions |

## Modelling choices

- **Integers are unbounded.** Wherever a cast or a u32 product can wrap, `AsU32`
  writes the wrap out. The grids' dimensions satisfy `Fits`:
  - width and height are at most `i32::MAX`;
  - `width * height` is at most `u32::MAX`.

  `Proper` adds that both are positive.
- **Randomness is a parameter.** `rng: nat -> bool` gives the outcome of the n-th
  random comparison of a tick. Each function also takes and returns a draw counter.
  Game of Life's random initial grid is a parameter `alive: nat -> bool` of `New`.
- **Rust `Cell`s are pure values.** Falling sand's interior mutability becomes pure
  updates of a `TileStorage` value. The movement pass reads each tile's *current*
  coordinates, as the loop does: it calls `raw_tile.get()` on the live list, so a
  tile moved earlier in the same pass is seen where it now is.
- **Quadtree coordinates are exact reals.** The f32 test
  `sqrt(dx² + dy²) <= r` becomes `0 <= r && dx² + dy² <= r²`, which is equivalent
  over the reals. Products go through `Mul` so that the proofs can reason about them
  one step at a time.
- **Quadtree recursion is bounded by fuel.** `Insert` takes `fuel`, the number of
  nested subdivisions it may still trigger. It returns `None` when that runs out.
  See "Left out".

## Model

| member | source | states |
|---|---|---|
| MachineInts.AsU32 | packages/webgl/src/utils/coordinate_encoder.rs:21 | a cast to u32 keeps values in u32 range and adds 2^32 to negative values above -2^32 |
| CoordinateEncoder.Decode | packages/webgl/src/utils/coordinate_encoder.rs:50-55 | an index inside the grid decodes to coordinates inside the grid |
| CoordinateEncoder.FlatEncode | packages/webgl/src/utils/coordinate_encoder.rs:57-63 | a defined result is the row-major index `y*w+x` and lies inside the tile area |
| CoordinateEncoder.FlatEncodeDefinedIff | packages/webgl/src/utils/coordinate_encoder.rs:58 | the flat encoder is defined exactly on in-grid coordinates (both directions) |
| CoordinateEncoder.FlatRoundTripIndex | packages/webgl/src/utils/coordinate_encoder.rs:50-63 | encoding the decoded coordinates of an in-grid index gives the index back |
| CoordinateEncoder.FlatRoundTripCoords | packages/webgl/src/utils/coordinate_encoder.rs:50-63 | decoding the encoding of in-grid coordinates gives the coordinates back |
| CoordinateEncoder.FlatEncodeInjective | packages/webgl/src/utils/coordinate_encoder.rs:57-63 | two coordinate pairs with the same defined encoding are equal |
| CoordinateEncoder.LoopingEncode | packages/webgl/src/utils/coordinate_encoder.rs:18-34 | the looping encoder is always defined and always lands inside the tile area |
| CoordinateEncoder.LoopingAgreesWithFlat | packages/webgl/src/utils/coordinate_encoder.rs:18-34 | on in-grid coordinates the looping encoder equals the flat one |
| CoordinateEncoder.LoopingWrapsLeft | packages/webgl/src/utils/coordinate_encoder.rs:20-21 | column -1 wraps to column w-1 on the same row |
| CoordinateEncoder.LoopingWrapsRight | packages/webgl/src/utils/coordinate_encoder.rs:22-23 | column w wraps to column 0 on the same row |
| CoordinateEncoder.LoopingWrapsBottom | packages/webgl/src/utils/coordinate_encoder.rs:25-26 | row -1 wraps to row h-1 |
| CoordinateEncoder.LoopingWrapsTop | packages/webgl/src/utils/coordinate_encoder.rs:27-33 | row h wraps to row 0 through the final modulo, when `w*(h+1)` fits in u32 |
| GameOfLife.New | packages/playground/src/simulations/gol.rs:13-26 | the grid has exactly `w*h` cells, including none when either dimension is 0, and cell i is alive iff the i-th draw says so |
| GameOfLife.Encode | packages/playground/src/simulations/gol.rs:35-49 | every coordinate pair, however far off the grid, encodes to a valid tile index |
| GameOfLife.RowMajorModExact | packages/playground/src/simulations/gol.rs:48 | when the u32 product does not wrap, the encoder's index is `(y*w+x) mod len` |
| GameOfLife.DecodeCell | packages/playground/src/simulations/gol.rs:28-33 | a valid tile index decodes to coordinates inside the grid |
| GameOfLife.EncodeInGrid | packages/playground/src/simulations/gol.rs:28-49 | in-grid coordinates encode to `y*w+x`, and decoding gives them back |
| GameOfLife.EncodeWrapsNegative | packages/playground/src/simulations/gol.rs:37-46 | coordinate -1 wraps to the last column or row |
| GameOfLife.EncodeTopWraps | packages/playground/src/simulations/gol.rs:42-48 | row h wraps to row 0 through the final modulo |
| GameOfLife.EncodeRightEdgeSpills | packages/playground/src/simulations/gol.rs:37-48 | column w does not wrap to column 0 of its own row; it lands on column 0 of the next row |
| GameOfLife.LiveNeighbours | packages/playground/src/simulations/gol.rs:51-65 | the live-neighbour count of a cell is at most 8; `torus == false` reads neighbours through `encode` as written, `torus == true` through the wrapping encoder |
| GameOfLife.ActiveNeighbourCount | packages/playground/src/simulations/gol.rs:51-65 | the nested offset loop counts exactly the live cells among the eight neighbours that `encode` as written selects |
| GameOfLife.Next | packages/playground/src/simulations/gol.rs:67-76 | a generation keeps the grid's dimensions and length, through either encoder |
| GameOfLife.Update | packages/playground/src/simulations/gol.rs:67-76 | the double-buffered loop computes the next generation (through `encode` as written) of every cell from the old grid only, ignoring its width and height arguments |
| GameOfLife.ConwayRule | packages/playground/src/simulations/gol.rs:70-73 | a cell is alive next iff it has 3 live neighbours, or it is alive with 2 |
| GameOfLife.LonelyOrCrowdedDies | packages/playground/src/simulations/gol.rs:72-73 | a cell with fewer than 2 or more than 3 live neighbours is dead next |
| GameOfLife.DeadGridStaysDead | packages/playground/src/simulations/gol.rs:67-76 | an all-dead grid stays all dead, through either encoder |
| GameOfLife.EmptyGridStaysEmpty | packages/playground/src/simulations/gol.rs:67-76 | a grid created with width or height 0 has no cells, and update leaves it unchanged |
| GameOfLife.TorusEncodeModular | packages/playground/src/simulations/gol.rs:35-49 | corrected encoder: the index is `(y mod h) * w + x mod w`, each coordinate reduced on its own axis |
| GameOfLife.TorusWrapsEveryEdge | packages/playground/src/simulations/gol.rs:35-49 | corrected encoder: column w is column 0 and column -1 is column w-1 on every row; row h is row 0 and row -1 is row h-1 on every column |
| GameOfLife.TorusAgreesLeftOfRightEdge | packages/playground/src/simulations/gol.rs:35-49 | for x in [-1, w) and y in [-1, h) the corrected encoder and `encode` as written pick the same cell; they differ only from column w on |
| GameOfLife.CountUnfolded | packages/playground/src/simulations/gol.rs:51-65 | the neighbour count is the sum over the eight offsets around the cell, through either encoder |
| GameOfLife.EdgeBlockBirthsCell | packages/playground/src/simulations/gol.rs:35-76 | as written, on the 4×4 grid whose live cells are (3, 1), (0, 1), (3, 2) and (0, 2), a 2×2 block across the left and right edges, the dead cell (3, 0) counts 3 live neighbours and is born, so the block is not a still life |
| GameOfLife.EdgeBlockStillOnTorus | packages/playground/src/simulations/gol.rs:35-76 | through the corrected encoder the same grid is unchanged by a generation |
| GameOfLife.PairHitsBound | packages/playground/src/simulations/gol.rs:51-65 | on an axis of length ≥ 3 the window c-1, c, c+1 meets a wrapping pair of coordinates at most twice, and exactly twice when c is in the pair |
| GameOfLife.BlockWindow | packages/playground/src/simulations/gol.rs:51-65 | through the corrected encoder, on a grid holding one 2×2 block, a cell's neighbours plus itself number the product of the block's hits in its column window and its row window |
| GameOfLife.BlockIsStillLife | packages/playground/src/simulations/gol.rs:67-76 | through the corrected encoder a 2×2 block, wherever it sits and however it straddles the edges, is a still life on every grid at least 3×3 |
| Tiles.CellIndexEncodes | packages/webgl/src/simulations/falling_sand.rs:47 | the store's cell index is the flat encoder's result for in-grid coordinates |
| Tiles.CellIndexInjective | packages/webgl/src/simulations/falling_sand.rs:47 | distinct in-grid cells have distinct map slots |
| Tiles.New | packages/webgl/src/simulations/falling_sand.rs:29-35 | a new store has no tiles and `w*h` empty map cells, and is consistent |
| Tiles.GetIndex | packages/webgl/src/simulations/falling_sand.rs:45-51 | off-grid coordinates give None; in-grid ones give the map entry of their cell |
| Tiles.Get | packages/webgl/src/simulations/falling_sand.rs:37-43 | get is defined iff get_index is, and returns the tile at that position |
| Tiles.GetIndexFindsTile | packages/webgl/src/simulations/falling_sand.rs:37-51 | in a consistent store, get_index gives i iff tile i sits at those coordinates |
| Tiles.Insert | packages/webgl/src/simulations/falling_sand.rs:53-56 | the tile is appended, its cell points at the new position, and every other cell is unchanged; no occupancy check |
| Tiles.InsertPreservesForward | packages/webgl/src/simulations/falling_sand.rs:53-56 | insert keeps every map entry pointing at a tile that sits in that cell |
| Tiles.InsertOnEmptyKeepsConsistent | packages/webgl/src/simulations/falling_sand.rs:53-56 | inserting into an empty cell keeps the map and the tile list in bijection |
| Tiles.InsertOnOccupiedOrphans | packages/webgl/src/simulations/falling_sand.rs:53-56 | inserting into an occupied cell leaves the old occupant unreachable from the map |
| Tiles.Swap | packages/webgl/src/simulations/falling_sand.rs:58-69 | an off-grid target changes nothing; otherwise only the two map cells change, and every tile keeps its id |
| Tiles.SwapPreservesForward | packages/webgl/src/simulations/falling_sand.rs:58-69 | swap keeps every map entry pointing at a tile located in that cell |
| Tiles.SwapPreservesBackward | packages/webgl/src/simulations/falling_sand.rs:58-69 | swap keeps every tile reachable from the cell it claims to occupy |
| Tiles.SwapMovesBoth | packages/webgl/src/simulations/falling_sand.rs:58-69 | the moving tile takes the target cell, the target's occupant (if any) takes the old cell, and every other tile is unchanged |
| FallingSand.Direction | packages/webgl/src/simulations/falling_sand.rs:130 | the random direction is -1 iff the draw succeeds, and +1 otherwise |
| FallingSand.SpawnPoint | packages/webgl/src/simulations/falling_sand.rs:116-118 | a missed draw changes nothing; a hit appends water at column point+4 of the top row |
| FallingSand.SpawnFrom | packages/webgl/src/simulations/falling_sand.rs:115-119 | the spawn loop appends only water tiles to the top row, one per hit draw, and keeps earlier tiles |
| FallingSand.Spawn | packages/webgl/src/simulations/falling_sand.rs:113-120 | while spawn_count < 1000 it adds at most 20 water tiles and counts the tick; afterwards it changes nothing |
| FallingSand.Target | packages/webgl/src/simulations/falling_sand.rs:122-157 | only sand or water above row 0 moves, by dx in {-1,0,1} and dy in {-1,0}; water moves sideways only when the cell below the water is occupied, and then to a different, free, in-bounds cell on the water's own row; water moving down goes straight down into a free cell; sand moves only into empty or water cells |
| FallingSand.Step | packages/webgl/src/simulations/falling_sand.rs:122-157 | one tile's move keeps the tile count and every id; a tile at y == 0, or of another kind, leaves the store unchanged |
| FallingSand.MoveFrom | packages/webgl/src/simulations/falling_sand.rs:122-158 | the movement pass keeps the tile count and every tile's id |
| FallingSand.StepKeepsConsistent | packages/webgl/src/simulations/falling_sand.rs:122-157 | one tile's move keeps the map and the tile list in bijection |
| FallingSand.MoveKeepsConsistent | packages/webgl/src/simulations/falling_sand.rs:122-158 | the whole movement pass keeps the map and the tile list in bijection |
| FallingSand.SandFallsIntoEmpty | packages/webgl/src/simulations/falling_sand.rs:125-141 | sand above an empty cell falls one row, vacates its cell, and uses no draw |
| FallingSand.SandSinksThroughWater | packages/webgl/src/simulations/falling_sand.rs:125-128 | sand above water trades places with that water |
| FallingSand.Update | packages/webgl/src/simulations/falling_sand.rs:112-160 | a tick keeps the state valid, counts spawning ticks up to 1000, and adds at most 20 tiles, all water; existing tiles keep their ids |
| FallingSand.SpawnOrphansOccupant | packages/webgl/src/simulations/falling_sand.rs:113-120 | as written, spawning onto an occupied cell makes the occupant unreachable from the map |
| FallingSand.SpawnBreaksForward | packages/webgl/src/simulations/falling_sand.rs:112-160 | as written, one tick on a 24×2 grid holding water at (4, 1), with only the first draw hitting, leaves cell (4, 0) naming a tile that sits at (5, 1): the forward map invariant fails, so `get` returns a tile from another cell |
| FallingSand.UpdateCheckedKeepsConsistent | packages/webgl/src/simulations/falling_sand.rs:112-160 | with an occupancy check on spawn, a tick keeps a consistent store consistent |
| FallingSand.Run | packages/webgl/src/simulations/falling_sand.rs:112-160 | repeated checked ticks keep spawn_count ≤ 1000, add at most 20 tiles per remaining spawn tick, and keep consistency |
| Quadtrees.Contains | packages/playground/src/quadtree.rs:17-22 | `Rectangle::contains` is membership in the half-open box [x, x+w) × [y, y+h); only a box of positive width and height contains a point |
| Quadtrees.Touches | packages/playground/src/quadtree.rs:24-46 | `intersectCircle`: `centred == false` is the source's test, which treats the corner (x, y) as the box's centre; `centred == true` is the corrected test around (x + w/2, y + h/2). Either way it accepts only circles whose bounding square overlaps the w × h box around the tested centre, and it accepts every circle of non-negative radius centred inside that box |
| Quadtrees.ContainsHalfOpen | packages/playground/src/quadtree.rs:17-22 | a rectangle contains its lower-left corner but not points on its right or top edge |
| Quadtrees.QuartersPartition | packages/playground/src/quadtree.rs:81-120 | a point of the parent lies in exactly one of the four children, and a point outside it lies in none, in both visiting orders |
| Quadtrees.CentredTouchComplete | packages/playground/src/quadtree.rs:24-46 | measured from the rectangle's centre, the test accepts every circle that reaches a point of the rectangle |
| Quadtrees.GoodIsShaped | packages/playground/src/quadtree.rs:48-57 | an invariant-respecting tree is either a leaf or has all four children |
| Quadtrees.LeavesWithinCapacity | packages/playground/src/quadtree.rs:150-162 | with capacity ≥ 1, no leaf of a tree holds more than `capacity` points |
| Quadtrees.New | packages/playground/src/quadtree.rs:60-71 | a new tree is an undivided, empty leaf with the given rectangle and capacity that satisfies the invariant |
| Quadtrees.Reset | packages/playground/src/quadtree.rs:73-79 | reset clears the divided flag and children and keeps the rectangle, capacity and point list |
| Quadtrees.ResetKeepsGood | packages/playground/src/quadtree.rs:73-79 | reset keeps the invariant; on a divided tree it gives a new, empty tree and drops every stored point; a leaf is unchanged |
| Quadtrees.SetDimensions | packages/playground/src/quadtree.rs:201-204 | only the width and height change |
| Quadtrees.SetDimensionsEffect | packages/playground/src/quadtree.rs:201-204 | stored points are kept; on a new tree it is a new tree of the new size; resizing a divided tree breaks the invariant, since the children keep their old rectangles |
| Quadtrees.Insert | packages/playground/src/quadtree.rs:135-176 | a point outside the rectangle returns false and changes nothing; within fuel, the result is true iff the point is contained, the invariant, rectangle and capacity are kept, and the stored multiset grows by exactly that entry when true |
| Quadtrees.InsertWithRoomNeedsNoFuel | packages/playground/src/quadtree.rs:135-159 | any tree, leaf or divided, whose leaf on the way of a contained point has room accepts the point without subdividing anything, so it needs no fuel, and the root keeps its shape |
| Quadtrees.TryChildrenWithRoom | packages/playground/src/quadtree.rs:138-149 | trying the children in order, when one of them contains the point and has room for it, succeeds with no fuel |
| Quadtrees.TryChildren | packages/playground/src/quadtree.rs:138-174 | trying the children in nw, ne, sw, se order succeeds iff some child's rectangle contains the point, adding exactly one copy |
| Quadtrees.Subdivide | packages/playground/src/quadtree.rs:81-133 | subdividing a leaf gives a divided tree satisfying the invariant and storing the same multiset of points |
| Quadtrees.Redistribute | packages/playground/src/quadtree.rs:122-128 | offering each point of the list to the children stores each of them once more |
| Quadtrees.Offer | packages/playground/src/quadtree.rs:124-127 | offering one point to ne, se, nw, sw in turn stores it as many times as those children contain it |
| Quadtrees.Within | packages/playground/src/quadtree.rs:190-196 | the leaf scan keeps only stored points within the radius, and every one of them |
| Quadtrees.Query | packages/playground/src/quadtree.rs:178-198 | query is sound: every returned entry is stored, with multiplicity, and lies within the radius |
| Quadtrees.QueryZeroRadius | packages/playground/src/quadtree.rs:178-198 | a zero-radius query returns only points at the circle's centre |
| Quadtrees.QueryMissesNearPoint | packages/playground/src/quadtree.rs:24-46 | as written, a stored point inside the query circle is not returned |
| Quadtrees.QueryCentredComplete | packages/playground/src/quadtree.rs:178-198 | with the intersection measured from the rectangle's centre, query returns every stored entry within the radius |

## Left out

- `ScreenSpaceEncoder` and `map` (`coordinate_encoder.rs:74-111`): f32 screen
  scaling, which is rendering and not grid logic.
- Rendering: `render` in `gol.rs` and `falling_sand.rs`, and `renderroot` and
  `renderchild` in `quadtree.rs`. They only issue WebGL calls.
- The crate root, module wiring and GL setup (`lib.rs`, `simulations/mod.rs`,
  `simulation.rs`, `gl_setup.rs`) and the flocking simulation (`flock.rs`). Flocking
  is f32 vector numerics. It only uses the quadtree: each tick it builds a new tree
  and calls `set_dimensions`, and its call to `reset` is commented out.
- `FallingSand::new` (`falling_sand.rs:81-108`) draws a random initial sand field.
  The model starts from any valid store.
- f32 rounding in the quadtree: halving, the distance test and the square root are
  exact in the model.
- Quadtrees.Insert: fuel bounds the depth of subdivision. Over the reals, more than
  `capacity` points at one position subdivide without end, and the model returns
  `None` when fuel runs out. The source never gets that far in f32. For a point away
  from the origin, halving the rectangle (quadtree.rs:104-115) soon makes
  `x + width/2.0` round back to `x`. Then no child contains the point
  (quadtree.rs:17-22), the redistribution loop (quadtree.rs:122-128) silently
  drops the leaf's points, and `insert` returns false for a point the root
  contains. The contract constrains only the `Some` results.
  `InsertWithRoomNeedsNoFuel` shows that an insertion which needs no subdivision
  always gives `Some`, with no fuel at all.
- Quadtrees.Query: returns `(point, id)` entries where the source returns ids only.
  Soundness is stated, but completeness is not, because the as-written
  intersection test fails it. See "Findings".
- Quadtrees.LeafLimit: `capacity as usize` of a negative `i16` wraps to a huge
  value. The leaf bound is stated only for capacity ≥ 1.
- CoordinateEncoder.FlatEncode: requires `Fits`. Dimensions whose product or
  row-major index overflow u32 are not modelled.
- CoordinateEncoder.LoopingEncode: requires `Proper`. Rust's `% 0` on an empty grid
  would panic, and the model excludes that grid.
- GameOfLife.Encode: requires `Fits` and a non-empty grid, for the same reasons.
  The grid itself may be empty. `update` never calls `encode` on an empty grid,
  and the encoder lemmas ask for a non-empty one.
- FallingSand.Update: requires `Valid`, which is stronger than what the source needs.
  - While spawning, `Valid` asks for a width of at least 24, so that every spawn
    column is on the grid. The source panics (in `insert`'s `unwrap`) only when a
    draw hits a column at or beyond the width. A tick on a narrower grid in which
    no such draw hits runs normally in the source, and the model does not cover it.
  - `Valid` also asks for a non-empty grid. An empty grid after spawning has ended
    has nothing to move, so excluding it loses no behaviour.
  - Movement panics cannot arise under `WellFormed`.
- Release-build wrap-around is modelled. Debug-build overflow panics are not.

## Findings

| source | as written | input that shows it | evidently intended | confidence | as-written member | corrected member |
|---|---|---|---|---|---|---|
| packages/webgl/src/simulations/falling_sand.rs:113-120 | the spawn phase inserts water at `(point + 4, h - 1)` without checking the cell, and insert overwrites the cell's map entry. The occupant is orphaned. Within the same tick the movement pass then carries the stolen entry along with the occupant's swap, so the forward invariant fails too, and `get` returns tiles from other cells | orphaning: a 24×1 grid whose only tile sits at (4, 0), spawn_count 0, first draw above 0.75. Forward break: a 24×2 grid holding water at (4, 1), spawn_count 0, only the first draw hitting; afterwards cell (4, 0) names the spawned tile, which sits at (5, 1) | spawn water only into an empty cell, so that the map and the tile list stay in bijection | medium; not executed | FallingSand.SpawnOrphansOccupant, FallingSand.SpawnBreaksForward | FallingSand.UpdateCheckedKeepsConsistent |
| packages/playground/src/quadtree.rs:24-46 | `intersectCircle` measures the circle's offset from the rectangle's corner `(x, y)` but compares it with half-widths, as if `(x, y)` were the centre | a leaf over [0,10)×[0,10) holding (9, 9); query circle (9, 9, 0.5) returns nothing | measure from the centre `(x + w/2, y + h/2)`, so that query returns every stored id within the radius | high; not executed | Quadtrees.QueryMissesNearPoint | Quadtrees.QueryCentredComplete |
| packages/playground/src/simulations/gol.rs:37-48 | `encode` adds the width only to a negative x; a non-negative x is not reduced modulo the width, so column w (the right neighbour of the last column) is read from column 0 of the next row, and from row 0 when y is the top row | the 4×4 grid whose live cells are (3, 1), (0, 1), (3, 2) and (0, 2), a 2×2 block across the left and right edges: the dead cell (3, 0) counts (3, 1) and, through the spill, (0, 1) and (0, 2), so 3 neighbours, and is born | reduce each coordinate modulo its own dimension, so that every edge wraps and a block straddling an edge is a still life | medium; not executed | GameOfLife.EdgeBlockBirthsCell, GameOfLife.EncodeRightEdgeSpills | GameOfLife.BlockIsStillLife, GameOfLife.TorusWrapsEveryEdge |
