/** One tick of the falling-sand simulation: a spawn phase that drops water
    tiles into the top row, then one pass over the tile list in which every
    sand tile (id 1) and water tile (id 2) may move by one cell. Random draws
    come from an oracle `rng`; `rng(n)` is the outcome of the n-th float
    comparison, and every function returns the next unused draw number. */
module FallingSand {
  import opened MachineInts
  import opened Wrappers
  import opened CoordinateEncoder
  import opened Tiles

  const SAND: nat := 1
  const WATER: nat := 2
  /** Ticks that spawn water; afterwards the spawn phase is skipped. */
  const SPAWN_TICKS: nat := 1000
  /** Spawn points per tick; point p drops water at column p + SPAWN_OFFSET. */
  const SPAWN_POINTS: nat := 20
  const SPAWN_OFFSET: nat := 4

  /** The simulation state: the tile store (whose dimensions are the
      simulation's) and the number of ticks that have spawned water. */
  datatype Sim = Sim(store: TileStorage, spawnCount: nat)

  /** The states a tick accepts: a non-empty grid, a well-formed store, and
      room for every spawn column while spawning continues (the spawn
      insert unwraps the encoder's result). */
  predicate Valid(f: Sim) {
    && Proper(f.store.dims)
    && WellFormed(f.store)
    && (f.spawnCount < SPAWN_TICKS ==> SPAWN_POINTS + SPAWN_OFFSET <= f.store.dims.width)
  }

  /** A draw `> 0.5` sends the tile left, otherwise right. */
  function Direction(draw: bool): (d: int)
    ensures d == -1 || d == 1
    ensures d == -1 <==> draw
  {
    if draw then -1 else 1
  }

  /** How many of the draws n, n+1, ..., n+count-1 come out true. */
  function TrueDraws(rng: nat -> bool, n: nat, count: nat): (h: nat)
    ensures h <= count
    decreases count
  {
    if count == 0 then 0 else (if rng(n) then 1 else 0) + TrueDraws(rng, n + 1, count - 1)
  }

  // ---------------------------------------------------------------------
  // Spawn phase
  //
  // `checkEmpty` selects between the source's spawn (false: insert whether or
  // not the cell is occupied) and the corrected spawn (true: insert only into
  // an empty cell). Both consume the same draws.

  /** The spawn cell of point p: column p + 4 of the top row. */
  function SpawnTile(d: Dims, point: nat): (t: Tile)
    requires 0 < d.height
    ensures t.id == WATER && t.y == d.height - 1
  {
    Tile(point + SPAWN_OFFSET, d.height - 1, WATER)
  }

  /** One spawn point, given whether its draw hit. */
  function SpawnPoint(s: TileStorage, point: nat, hit: bool, checkEmpty: bool): (r: TileStorage)
    requires WellFormed(s) && 0 < s.dims.height && SPAWN_POINTS + SPAWN_OFFSET <= s.dims.width
    requires point < SPAWN_POINTS
    ensures WellFormed(r) && r.dims == s.dims
    ensures r == s || r == Insert(s, SpawnTile(s.dims, point))
    ensures !hit ==> r == s
    ensures hit && !checkEmpty ==> r == Insert(s, SpawnTile(s.dims, point))
    ensures checkEmpty && r != s ==> GetIndex(s, point + SPAWN_OFFSET, s.dims.height - 1) == None
  {
    var t := SpawnTile(s.dims, point);
    if hit && (!checkEmpty || GetIndex(s, t.x, t.y) == None) then Insert(s, t) else s
  }

  /** Spawn points `point` .. 19: each draws once and, on a hit, inserts a
      water tile at column point + 4 of the top row. */
  function SpawnFrom(s: TileStorage, point: nat, rng: nat -> bool, n: nat, checkEmpty: bool): (r: (TileStorage, nat))
    requires WellFormed(s) && 0 < s.dims.height && SPAWN_POINTS + SPAWN_OFFSET <= s.dims.width
    requires point <= SPAWN_POINTS
    ensures WellFormed(r.0) && r.0.dims == s.dims
    ensures |s.tiles| <= |r.0.tiles| <= |s.tiles| + TrueDraws(rng, n, SPAWN_POINTS - point)
    ensures !checkEmpty ==> |r.0.tiles| == |s.tiles| + TrueDraws(rng, n, SPAWN_POINTS - point)
    ensures forall i :: 0 <= i < |s.tiles| ==> r.0.tiles[i] == s.tiles[i]
    ensures forall i :: |s.tiles| <= i < |r.0.tiles| ==>
              r.0.tiles[i].id == WATER && r.0.tiles[i].y == s.dims.height - 1 &&
              point + SPAWN_OFFSET <= r.0.tiles[i].x < SPAWN_POINTS + SPAWN_OFFSET
    ensures r.1 == n + (SPAWN_POINTS - point)
    decreases SPAWN_POINTS - point
  {
    if point == SPAWN_POINTS then (s, n)
    else SpawnFrom(SpawnPoint(s, point, rng(n), checkEmpty), point + 1, rng, n + 1, checkEmpty)
  }

  /** The spawn phase: only while fewer than 1000 ticks have spawned. */
  function Spawn(f: Sim, rng: nat -> bool, n: nat, checkEmpty: bool): (r: (Sim, nat))
    requires Valid(f)
    ensures WellFormed(r.0.store) && r.0.store.dims == f.store.dims
    ensures |f.store.tiles| <= |r.0.store.tiles|
    ensures f.spawnCount < SPAWN_TICKS ==>
              && r.0.spawnCount == f.spawnCount + 1
              && |r.0.store.tiles| <= |f.store.tiles| + TrueDraws(rng, n, SPAWN_POINTS)
              && (!checkEmpty ==> |r.0.store.tiles| == |f.store.tiles| + TrueDraws(rng, n, SPAWN_POINTS))
              && r.1 == n + SPAWN_POINTS
    ensures SPAWN_TICKS <= f.spawnCount ==> r == (f, n)
    ensures forall i :: 0 <= i < |f.store.tiles| ==> r.0.store.tiles[i] == f.store.tiles[i]
    ensures forall i :: |f.store.tiles| <= i < |r.0.store.tiles| ==>
              r.0.store.tiles[i].id == WATER && r.0.store.tiles[i].y == f.store.dims.height - 1
  {
    if f.spawnCount < SPAWN_TICKS then
      var sp := SpawnFrom(f.store, 0, rng, n, checkEmpty);
      (Sim(sp.0, f.spawnCount + 1), sp.1)
    else (f, n)
  }

  // ---------------------------------------------------------------------
  // Movement phase

  /** The cell tile k tries to swap into, if it initiates a swap at all, and
      the next unused draw. The tile's coordinates are read from the live
      store, so a tile moved earlier in the same pass is seen where it now
      is. A target can still be off the grid; the swap then does nothing. */
  function Target(s: TileStorage, k: nat, rng: nat -> bool, n: nat): (r: (Option<(i32, i32)>, nat))
    requires WellFormed(s) && k < |s.tiles|
    ensures r.1 == n || r.1 == n + 1
    ensures r.0.Some? ==>
              var t := s.tiles[k];
              && 0 < t.y
              && (t.id == SAND || t.id == WATER)
              && -1 <= r.0.value.0 - t.x <= 1
              && (r.0.value.1 == t.y - 1 || r.0.value.1 == t.y)
    ensures r.0.Some? && r.0.value.1 == s.tiles[k].y ==>
              var t := s.tiles[k];
              && t.id == WATER
              && r.0.value.0 != t.x
              && 0 <= r.0.value.0 < s.dims.width
              && GetIndex(s, t.x, t.y - 1).Some?
              && GetIndex(s, r.0.value.0, t.y) == None
    ensures r.0.Some? && s.tiles[k].id == WATER && r.0.value.1 == s.tiles[k].y - 1 ==>
              r.0.value.0 == s.tiles[k].x && GetIndex(s, s.tiles[k].x, s.tiles[k].y - 1) == None
    ensures r.0.Some? && s.tiles[k].id == SAND ==>
              Get(s, r.0.value.0, r.0.value.1).None? || Get(s, r.0.value.0, r.0.value.1).value.id == WATER
  {
    var t := s.tiles[k];
    var x: i32 := t.x;
    var y: i32 := t.y;
    if t.y == 0 then (None, n)
    else
      var down: i32 := y - 1;
      if t.id == SAND then
        match Get(s, x, down)
        case None => (Some((x, down)), n)
        case Some(below) =>
          if below.id == WATER then (Some((x, down)), n)
          else
            var side: i32 := x + Direction(rng(n));
            match Get(s, side, down)
            case None => (Some((side, down)), n + 1)
            case Some(diagonal) => (if diagonal.id == WATER then Some((side, down)) else None, n + 1)
      else if t.id == WATER then
        if Get(s, x, down).Some? then
          var d := Direction(rng(n));
          var side: i32 := x + d;
          var other: i32 := x - d;
          if Get(s, side, y).None? then
            (if (d < 0 && t.x > 0) || (d > 0 && t.x < s.dims.width - 1) then Some((side, y)) else None, n + 1)
          else if Get(s, other, y).None? then
            (if (-d < 0 && t.x > 0) || (-d > 0 && t.x < s.dims.width - 1) then Some((other, y)) else None, n + 1)
          else (None, n + 1)
        else (Some((x, down)), n)
      else (None, n)
  }

  /** The loop body for tile k: swap it towards its target, if it has one. */
  function Step(s: TileStorage, k: nat, rng: nat -> bool, n: nat): (r: (TileStorage, nat))
    requires WellFormed(s) && k < |s.tiles|
    ensures WellFormed(r.0) && r.0.dims == s.dims && |r.0.tiles| == |s.tiles|
    ensures forall i :: 0 <= i < |s.tiles| ==> r.0.tiles[i].id == s.tiles[i].id
    ensures r.1 == n || r.1 == n + 1
    ensures s.tiles[k].y == 0 ==> r.0 == s
    ensures s.tiles[k].id != SAND && s.tiles[k].id != WATER ==> r.0 == s
  {
    var target := Target(s, k, rng, n);
    match target.0
    case None => (s, target.1)
    case Some(c) => (Swap(s, k, (s.tiles[k].x, s.tiles[k].y), c), target.1)
  }

  /** The movement loop from list position k to the end. */
  function MoveFrom(s: TileStorage, k: nat, rng: nat -> bool, n: nat): (r: (TileStorage, nat))
    requires WellFormed(s)
    ensures WellFormed(r.0) && r.0.dims == s.dims && |r.0.tiles| == |s.tiles|
    ensures forall i :: 0 <= i < |s.tiles| ==> r.0.tiles[i].id == s.tiles[i].id
    ensures n <= r.1
    decreases |s.tiles| - k
  {
    if |s.tiles| <= k then (s, n)
    else
      var st := Step(s, k, rng, n);
      MoveFrom(st.0, k + 1, rng, st.1)
  }

  /** `FallingSand::update`: the spawn phase, then one movement pass over
      every tile, including the ones just spawned. The source's update is
      `Update(f, rng, n, false)`. */
  function Update(f: Sim, rng: nat -> bool, n: nat, checkEmpty: bool): (r: (Sim, nat))
    requires Valid(f)
    ensures Valid(r.0) && r.0.store.dims == f.store.dims
    ensures f.spawnCount <= SPAWN_TICKS ==> r.0.spawnCount <= SPAWN_TICKS
    ensures f.spawnCount < SPAWN_TICKS ==> r.0.spawnCount == f.spawnCount + 1
    ensures SPAWN_TICKS <= f.spawnCount ==> r.0.spawnCount == f.spawnCount && |r.0.store.tiles| == |f.store.tiles|
    ensures |f.store.tiles| <= |r.0.store.tiles| <= |f.store.tiles| + SPAWN_POINTS
    ensures forall i :: 0 <= i < |f.store.tiles| ==> r.0.store.tiles[i].id == f.store.tiles[i].id
    ensures forall i :: |f.store.tiles| <= i < |r.0.store.tiles| ==> r.0.store.tiles[i].id == WATER
  {
    var sp := Spawn(f, rng, n, checkEmpty);
    var mv := MoveFrom(sp.0.store, 0, rng, sp.1);
    (Sim(mv.0, sp.0.spawnCount), mv.1)
  }

  // ---------------------------------------------------------------------
  // Movement keeps the store consistent

  /** In a consistent store every tile is the one its cell's map entry names,
      so each swap of the pass relocates a tile the map agrees about. */
  lemma StepKeepsConsistent(s: TileStorage, k: nat, rng: nat -> bool, n: nat)
    requires Consistent(s) && k < |s.tiles|
    ensures Consistent(Step(s, k, rng, n).0)
  {
    var t := s.tiles[k];
    var target := Target(s, k, rng, n).0;
    if target.Some? {
      assert s.tilemap[CellIndex(s.dims, t.x, t.y)] == Some(k);
      SwapPreservesForward(s, k, (t.x, t.y), target.value);
      SwapPreservesBackward(s, k, (t.x, t.y), target.value);
    }
  }

  /** The whole movement pass keeps a consistent store consistent. */
  lemma {:induction false} MoveKeepsConsistent(s: TileStorage, k: nat, rng: nat -> bool, n: nat)
    requires Consistent(s)
    ensures Consistent(MoveFrom(s, k, rng, n).0)
    decreases |s.tiles| - k
  {
    if k < |s.tiles| {
      var st := Step(s, k, rng, n);
      StepKeepsConsistent(s, k, rng, n);
      MoveKeepsConsistent(st.0, k + 1, rng, st.1);
    }
  }

  /** A sand tile above an empty cell falls into it: the cell it left is
      empty, it is the tile at the cell below, and no other tile moves. */
  lemma SandFallsIntoEmpty(s: TileStorage, k: nat, rng: nat -> bool, n: nat, r: (TileStorage, nat))
    requires Consistent(s) && k < |s.tiles|
    requires s.tiles[k].id == SAND && 0 < s.tiles[k].y
    requires GetIndex(s, s.tiles[k].x, s.tiles[k].y - 1) == None
    requires r == Step(s, k, rng, n)
    ensures r.0.tiles[k] == Tile(s.tiles[k].x, s.tiles[k].y - 1, SAND)
    ensures GetIndex(r.0, s.tiles[k].x, s.tiles[k].y - 1) == Some(k)
    ensures GetIndex(r.0, s.tiles[k].x, s.tiles[k].y) == None
    ensures forall i :: 0 <= i < |s.tiles| && i != k ==> r.0.tiles[i] == s.tiles[i]
    ensures r.1 == n
  {
    var t := s.tiles[k];
    assert Target(s, k, rng, n) == (Some((t.x as i32, t.y - 1)), n);
    SwapMovesBoth(s, k, (t.x, t.y), (t.x, t.y - 1), r.0);
  }

  /** A sand tile above a water tile trades places with it. */
  lemma SandSinksThroughWater(s: TileStorage, k: nat, j: nat, rng: nat -> bool, n: nat, r: (TileStorage, nat))
    requires Consistent(s) && k < |s.tiles|
    requires s.tiles[k].id == SAND && 0 < s.tiles[k].y
    requires GetIndex(s, s.tiles[k].x, s.tiles[k].y - 1) == Some(j) && s.tiles[j].id == WATER
    requires r == Step(s, k, rng, n)
    ensures r.0.tiles[k] == Tile(s.tiles[k].x, s.tiles[k].y - 1, SAND)
    ensures r.0.tiles[j] == Tile(s.tiles[k].x, s.tiles[k].y, WATER)
    ensures GetIndex(r.0, s.tiles[k].x, s.tiles[k].y - 1) == Some(k)
    ensures GetIndex(r.0, s.tiles[k].x, s.tiles[k].y) == Some(j)
    ensures forall i :: 0 <= i < |s.tiles| && i != k && i != j ==> r.0.tiles[i] == s.tiles[i]
    ensures r.1 == n
  {
    var t := s.tiles[k];
    assert Target(s, k, rng, n) == (Some((t.x as i32, t.y - 1)), n);
    GetIndexFindsTile(s, t.x, t.y - 1, j);
    SwapMovesBoth(s, k, (t.x, t.y), (t.x, t.y - 1), r.0);
  }

  // ---------------------------------------------------------------------
  // The unchecked spawn orphans tiles

  /** No map entry names tile j. */
  predicate Unnamed(s: TileStorage, j: nat) {
    forall c :: 0 <= c < |s.tilemap| ==> s.tilemap[c] != Some(j)
  }

  /** An insert names only the new tile, so an unnamed tile stays unnamed. */
  lemma SpawnPointKeepsOrphan(s: TileStorage, point: nat, hit: bool, checkEmpty: bool, j: nat)
    requires WellFormed(s) && 0 < s.dims.height && SPAWN_POINTS + SPAWN_OFFSET <= s.dims.width
    requires point < SPAWN_POINTS && j < |s.tiles| && Unnamed(s, j)
    ensures Unnamed(SpawnPoint(s, point, hit, checkEmpty), j)
  {
  }

  /** Later spawn points only ever name the new tiles, so a tile no map
      entry names stays unnamed. */
  lemma {:induction false} SpawnFromKeepsOrphan(s: TileStorage, point: nat, rng: nat -> bool, n: nat, checkEmpty: bool, j: nat)
    requires WellFormed(s) && 0 < s.dims.height && SPAWN_POINTS + SPAWN_OFFSET <= s.dims.width
    requires point <= SPAWN_POINTS && j < |s.tiles| && Unnamed(s, j)
    ensures Unnamed(SpawnFrom(s, point, rng, n, checkEmpty).0, j)
    decreases SPAWN_POINTS - point
  {
    if point < SPAWN_POINTS {
      var s1 := SpawnPoint(s, point, rng(n), checkEmpty);
      SpawnPointKeepsOrphan(s, point, rng(n), checkEmpty, j);
      SpawnFromKeepsOrphan(s1, point + 1, rng, n + 1, checkEmpty, j);
    }
  }

  /** In the source's spawn, when the first spawn point hits while its cell
      (4, height-1) holds tile j, tile j stays in the list with no map entry
      naming it: the store is no longer consistent. */
  lemma SpawnOrphansOccupant(f: Sim, rng: nat -> bool, n: nat, j: nat, r: TileStorage)
    requires Valid(f) && Consistent(f.store) && f.spawnCount < SPAWN_TICKS && rng(n)
    requires GetIndex(f.store, SPAWN_OFFSET, f.store.dims.height - 1) == Some(j)
    requires r == Spawn(f, rng, n, false).0.store
    ensures WellFormed(r) && j < |r.tiles| && r.tiles[j] == f.store.tiles[j]
    ensures Unnamed(r, j)
    ensures !Backward(r)
  {
    var s := f.store;
    var s1 := SpawnPoint(s, 0, true, false);
    InsertOnOccupiedOrphans(s, SpawnTile(s.dims, 0), j);
    assert Unnamed(s1, j);
    SpawnFromKeepsOrphan(s1, 1, rng, n + 1, false, j);
    assert r.tilemap[CellIndex(r.dims, r.tiles[j].x, r.tiles[j].y)] != Some(j);
  }

  /** Spawn points whose draws all miss leave the store as it is. */
  lemma {:induction false} SpawnFromMisses(s: TileStorage, point: nat, rng: nat -> bool, n: nat, checkEmpty: bool)
    requires WellFormed(s) && 0 < s.dims.height && SPAWN_POINTS + SPAWN_OFFSET <= s.dims.width
    requires point <= SPAWN_POINTS
    requires forall i :: n <= i < n + (SPAWN_POINTS - point) ==> !rng(i)
    ensures SpawnFrom(s, point, rng, n, checkEmpty) == (s, n + (SPAWN_POINTS - point))
    decreases SPAWN_POINTS - point
  {
    if point < SPAWN_POINTS {
      assert !rng(n);
      SpawnFromMisses(s, point + 1, rng, n + 1, checkEmpty);
    }
  }

  /** The source's tick also breaks the forward invariant. On a 24 × 2 grid
      holding one water tile at (4, 1), with only the first spawn draw
      hitting: the spawned tile 1 takes over the map entry of (4, 1); tile 0
      falls to (4, 0) and its swap carries that entry down with it; tile 1,
      now resting on a tile, moves sideways to (5, 1). Cell (4, 0) ends up
      naming tile 1, which sits at (5, 1), so `get(4, 0)` returns a tile of
      another cell. */
  lemma SpawnBreaksForward(f: Sim, rng: nat -> bool)
    requires f.store.dims == Dims(24, 2) && f.spawnCount == 0
    requires f.store.tiles == [Tile(4, 1, WATER)]
    requires f.store.tilemap == seq(48, c => if c == 28 then Some(0) else None)
    requires forall i :: rng(i) <==> i == 0
    ensures Valid(f) && Consistent(f.store)
    ensures var r := Update(f, rng, 0, false).0.store;
            && WellFormed(r) && |r.tiles| == 2
            && r.tilemap[4] == Some(1) && r.tiles[1] == Tile(5, 1, WATER)
            && !Forward(r)
  {
    BreakSpawn(f, rng);
    var s1 := Spawn(f, rng, 0, false).0.store;
    BreakFall(s1, rng);
    var s2 := Step(s1, 0, rng, 20).0;
    BreakSlide(s2, rng);
    var s3 := Step(s2, 1, rng, 20).0;
    assert MoveFrom(s3, 2, rng, 21) == (s3, 21);
    assert MoveFrom(s2, 1, rng, 20) == (s3, 21);
    assert MoveFrom(s1, 0, rng, 20) == (s3, 21);
    assert CellIndex(s3.dims, s3.tiles[1].x, s3.tiles[1].y) == 29;
  }

  /** The spawn phase of `SpawnBreaksForward`: point 0 hits and re-points
      cell (4, 1) at the new tile 1; the other nineteen draws miss. */
  lemma BreakSpawn(f: Sim, rng: nat -> bool)
    requires f.store.dims == Dims(24, 2) && f.spawnCount == 0
    requires f.store.tiles == [Tile(4, 1, WATER)]
    requires f.store.tilemap == seq(48, c => if c == 28 then Some(0) else None)
    requires forall i :: rng(i) <==> i == 0
    ensures Valid(f) && Consistent(f.store)
    ensures var sp := Spawn(f, rng, 0, false);
            var s1 := sp.0.store;
            && sp.1 == 20 && sp.0.spawnCount == 1
            && WellFormed(s1) && s1.dims == Dims(24, 2)
            && s1.tiles == [Tile(4, 1, WATER), Tile(4, 1, WATER)]
            && s1.tilemap[4] == None && s1.tilemap[28] == Some(1) && s1.tilemap[29] == None
  {
    var s0 := f.store;
    assert CellIndex(s0.dims, 4, 1) == 28;
    assert Consistent(s0);
    var s1 := Insert(s0, SpawnTile(s0.dims, 0));
    assert SpawnPoint(s0, 0, true, false) == s1;
    SpawnFromMisses(s1, 1, rng, 1, false);
    assert SpawnFrom(s0, 0, rng, 0, false) == (s1, 20);
    assert CellIndex(s0.dims, 4, 0) == 4 && CellIndex(s0.dims, 5, 1) == 29;
  }

  /** The first move of `SpawnBreaksForward`: tile 0 falls into the empty
      cell (4, 0), and the exchange moves cell (4, 1)'s entry, tile 1, there. */
  lemma BreakFall(s: TileStorage, rng: nat -> bool)
    requires WellFormed(s) && s.dims == Dims(24, 2)
    requires s.tiles == [Tile(4, 1, WATER), Tile(4, 1, WATER)]
    requires s.tilemap[4] == None && s.tilemap[28] == Some(1) && s.tilemap[29] == None
    ensures var st := Step(s, 0, rng, 20);
            && st.1 == 20 && WellFormed(st.0) && st.0.dims == s.dims
            && st.0.tiles == [Tile(4, 0, WATER), Tile(4, 1, WATER)]
            && st.0.tilemap[4] == Some(1) && st.0.tilemap[28] == None && st.0.tilemap[29] == None
  {
    assert CellIndex(s.dims, 4, 0) == 4 && CellIndex(s.dims, 4, 1) == 28;
    assert Target(s, 0, rng, 20) == (Some((4, 0)), 20);
    SwapUnfold(s, 0, (4, 1), (4, 0));
  }

  /** The second move of `SpawnBreaksForward`: tile 1 rests on a tile, draws
      +1 and slides into the empty cell (5, 1); cell (4, 0) keeps naming it. */
  lemma BreakSlide(s: TileStorage, rng: nat -> bool)
    requires WellFormed(s) && s.dims == Dims(24, 2) && !rng(20)
    requires s.tiles == [Tile(4, 0, WATER), Tile(4, 1, WATER)]
    requires s.tilemap[4] == Some(1) && s.tilemap[28] == None && s.tilemap[29] == None
    ensures var st := Step(s, 1, rng, 20);
            && st.1 == 21 && WellFormed(st.0) && st.0.dims == s.dims
            && st.0.tiles == [Tile(4, 0, WATER), Tile(5, 1, WATER)]
            && st.0.tilemap[4] == Some(1)
  {
    assert CellIndex(s.dims, 4, 0) == 4 && CellIndex(s.dims, 4, 1) == 28 && CellIndex(s.dims, 5, 1) == 29;
    assert Target(s, 1, rng, 20) == (Some((5, 1)), 21);
    SwapUnfold(s, 1, (4, 1), (5, 1));
  }

  // ---------------------------------------------------------------------
  // The corrected spawn keeps the store consistent

  lemma SpawnPointCheckedKeepsConsistent(s: TileStorage, point: nat, hit: bool)
    requires Consistent(s) && 0 < s.dims.height && SPAWN_POINTS + SPAWN_OFFSET <= s.dims.width
    requires point < SPAWN_POINTS
    ensures Consistent(SpawnPoint(s, point, hit, true))
  {
    if SpawnPoint(s, point, hit, true) != s {
      InsertOnEmptyKeepsConsistent(s, SpawnTile(s.dims, point));
    }
  }

  lemma {:induction false} SpawnFromCheckedKeepsConsistent(s: TileStorage, point: nat, rng: nat -> bool, n: nat)
    requires Consistent(s) && 0 < s.dims.height && SPAWN_POINTS + SPAWN_OFFSET <= s.dims.width
    requires point <= SPAWN_POINTS
    ensures Consistent(SpawnFrom(s, point, rng, n, true).0)
    decreases SPAWN_POINTS - point
  {
    if point < SPAWN_POINTS {
      var s1 := SpawnPoint(s, point, rng(n), true);
      SpawnPointCheckedKeepsConsistent(s, point, rng(n));
      SpawnFromCheckedKeepsConsistent(s1, point + 1, rng, n + 1);
    }
  }

  /** With the corrected spawn, a tick keeps a consistent store consistent. */
  lemma UpdateCheckedKeepsConsistent(f: Sim, rng: nat -> bool, n: nat)
    requires Valid(f)
    ensures Consistent(f.store) ==> Consistent(Update(f, rng, n, true).0.store)
  {
    if Consistent(f.store) {
      if f.spawnCount < SPAWN_TICKS {
        SpawnFromCheckedKeepsConsistent(f.store, 0, rng, n);
      }
      var sp := Spawn(f, rng, n, true);
      MoveKeepsConsistent(sp.0.store, 0, rng, sp.1);
    }
  }

  // ---------------------------------------------------------------------
  // Many ticks

  /** `ticks` corrected updates in a row, each starting at the draw the
      previous one left off. Over any number of ticks the spawn counter
      stops at 1000, at most 20 tiles per remaining spawn tick are ever
      added, and a consistent store stays consistent. */
  function Run(f: Sim, rng: nat -> bool, n: nat, ticks: nat): (r: (Sim, nat))
    requires Valid(f) && f.spawnCount <= SPAWN_TICKS
    ensures Valid(r.0) && r.0.store.dims == f.store.dims
    ensures r.0.spawnCount <= SPAWN_TICKS
    ensures |f.store.tiles| <= |r.0.store.tiles| <= |f.store.tiles| + SPAWN_POINTS * (SPAWN_TICKS - f.spawnCount)
    ensures Consistent(f.store) ==> Consistent(r.0.store)
    decreases ticks
  {
    if ticks == 0 then (f, n)
    else
      var u := Update(f, rng, n, true);
      UpdateCheckedKeepsConsistent(f, rng, n);
      Run(u.0, rng, u.1, ticks - 1)
  }
}
