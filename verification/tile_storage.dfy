/** The falling-sand tile store: a dense list of tiles plus a map from grid
    cell (row-major index) to an optional position in that list. Tiles are
    never removed; a swap relocates tiles by exchanging map entries and
    rewriting the tiles' stored coordinates. */
module Tiles {
  import opened MachineInts
  import opened Wrappers
  import opened CoordinateEncoder

  /** `Tile`: coordinates (u32) and a material id (u8): 1 is sand, 2 is water. */
  datatype Tile = Tile(x: nat, y: nat, id: nat)

  /** `TileStorage`: the bounded encoder's dimensions, the tile list and the
      cell-to-tile map. */
  datatype TileStorage = TileStorage(dims: Dims, tiles: seq<Tile>, tilemap: seq<Option<nat>>)

  predicate InGrid(d: Dims, x: int, y: int) {
    0 <= x < d.width && 0 <= y < d.height
  }

  /** The map index of an on-grid cell: the index `FlatEncoder::encode`
      returns for it (see `CellIndexEncodes`). */
  function CellIndex(d: Dims, x: nat, y: nat): (c: nat)
    requires Fits(d) && InGrid(d, x, y)
    ensures c < Area(d)
  {
    RowMajorBound(x, y, d.width, d.height);
    y * d.width + x
  }

  lemma CellIndexEncodes(d: Dims, x: nat, y: nat)
    requires Fits(d) && InGrid(d, x, y)
    ensures FlatEncode(d, x, y) == Some(CellIndex(d, x, y))
  {
  }

  /** Distinct cells have distinct map indices. */
  lemma CellIndexInjective(d: Dims, x1: nat, y1: nat, x2: nat, y2: nat)
    requires Fits(d) && InGrid(d, x1, y1) && InGrid(d, x2, y2)
    requires CellIndex(d, x1, y1) == CellIndex(d, x2, y2)
    ensures x1 == x2 && y1 == y2
  {
    CellIndexEncodes(d, x1, y1);
    CellIndexEncodes(d, x2, y2);
    FlatEncodeInjective(d, x1, y1, x2, y2);
  }

  /** The shape every operation keeps and relies on to not panic: one map
      entry per cell, every map entry a valid list position, every tile on
      the grid. */
  predicate WellFormed(s: TileStorage) {
    && Fits(s.dims)
    && |s.tilemap| == Area(s.dims)
    && (forall c :: 0 <= c < |s.tilemap| && s.tilemap[c].Some? ==> s.tilemap[c].value < |s.tiles|)
    && (forall i :: 0 <= i < |s.tiles| ==> InGrid(s.dims, s.tiles[i].x, s.tiles[i].y))
  }

  /** The forward map invariant: every `Some(i)` in the map points at a tile
      whose stored coordinates are that cell. */
  predicate Forward(s: TileStorage)
    requires WellFormed(s)
  {
    forall c :: 0 <= c < |s.tilemap| && s.tilemap[c].Some? ==>
      CellIndex(s.dims, s.tiles[s.tilemap[c].value].x, s.tiles[s.tilemap[c].value].y) == c
  }

  /** The backward invariant: every tile is the one the map names at its cell
      (no tile is orphaned, no two tiles share a cell). */
  predicate Backward(s: TileStorage)
    requires WellFormed(s)
  {
    forall i :: 0 <= i < |s.tiles| ==> s.tilemap[CellIndex(s.dims, s.tiles[i].x, s.tiles[i].y)] == Some(i)
  }

  /** Map and list describe the same tiles, in both directions. */
  predicate Consistent(s: TileStorage) {
    WellFormed(s) && Forward(s) && Backward(s)
  }

  /** `TileStorage::new`: no tiles, and a `None` for every cell. */
  function New(width: nat, height: nat): (s: TileStorage)
    requires Fits(Dims(width, height))
    ensures s.tiles == [] && |s.tilemap| == width * height
    ensures forall c :: 0 <= c < |s.tilemap| ==> s.tilemap[c] == None
    ensures Consistent(s)
  {
    TileStorage(Dims(width, height), [], seq(width * height, _ => None))
  }

  /** `TileStorage::get_index`: the map entry of an on-grid cell, `None` for
      off-grid coordinates. */
  function GetIndex(s: TileStorage, x: i32, y: i32): (r: Option<nat>)
    requires Fits(s.dims) && |s.tilemap| == Area(s.dims)
    ensures !InGrid(s.dims, x, y) ==> r == None
    ensures InGrid(s.dims, x, y) ==> r == s.tilemap[CellIndex(s.dims, x, y)]
  {
    match FlatEncode(s.dims, x, y)
    case Some(c) => s.tilemap[c]
    case None => None
  }

  /** `TileStorage::get`: the tile at a cell, `None` when the cell is empty
      OR off the grid. */
  function Get(s: TileStorage, x: i32, y: i32): (r: Option<Tile>)
    requires WellFormed(s)
    ensures r.Some? <==> GetIndex(s, x, y).Some?
    ensures r.Some? ==> r.value == s.tiles[GetIndex(s, x, y).value]
  {
    match GetIndex(s, x, y)
    case Some(i) => Some(s.tiles[i])
    case None => None
  }

  /** `TileStorage::insert`: append the tile and point its cell at it. The
      cell's previous entry, if any, is overwritten without a check. */
  function Insert(s: TileStorage, t: Tile): (r: TileStorage)
    requires Fits(s.dims) && |s.tilemap| == Area(s.dims) && InGrid(s.dims, t.x, t.y)
    ensures r.dims == s.dims
    ensures r.tiles == s.tiles + [t]
    ensures |r.tilemap| == |s.tilemap|
    ensures r.tilemap[CellIndex(s.dims, t.x, t.y)] == Some(|s.tiles|)
    ensures forall c :: 0 <= c < |s.tilemap| && c != CellIndex(s.dims, t.x, t.y) ==> r.tilemap[c] == s.tilemap[c]
    ensures WellFormed(s) ==> WellFormed(r)
  {
    var c := CellIndex(s.dims, t.x, t.y);
    TileStorage(s.dims, s.tiles + [t], s.tilemap[c := Some(|s.tiles|)])
  }

  /** `TileStorage::swap`: move tile k from `oldCoords` to `newCoords`. The two map
      entries are exchanged, tile k takes the new coordinates, and whatever
      tile the map now names at `oldCoords` takes the old coordinates. An off-grid
      `newCoords` changes nothing. */
  function Swap(s: TileStorage, k: nat, oldCoords: (nat, nat), newCoords: (i32, i32)): (r: TileStorage)
    requires WellFormed(s) && k < |s.tiles| && InGrid(s.dims, oldCoords.0, oldCoords.1)
    ensures WellFormed(r) && r.dims == s.dims
    ensures |r.tiles| == |s.tiles|
    ensures forall i :: 0 <= i < |s.tiles| ==> r.tiles[i].id == s.tiles[i].id
    ensures !InGrid(s.dims, newCoords.0, newCoords.1) ==> r == s
    ensures InGrid(s.dims, newCoords.0, newCoords.1) ==>
              forall c :: 0 <= c < |s.tilemap| ==>
                c == CellIndex(s.dims, oldCoords.0, oldCoords.1) ||
                c == CellIndex(s.dims, newCoords.0, newCoords.1) ||
                r.tilemap[c] == s.tilemap[c]
  {
    var oi := CellIndex(s.dims, oldCoords.0, oldCoords.1);
    match FlatEncode(s.dims, newCoords.0, newCoords.1)
    case None => s
    case Some(ni) =>
      var m := s.tilemap[oi := s.tilemap[ni]][ni := s.tilemap[oi]];
      var ts := s.tiles[k := Tile(newCoords.0, newCoords.1, s.tiles[k].id)];
      var s1 := TileStorage(s.dims, ts, m);
      assert WellFormed(s1);
      match Get(s1, oldCoords.0, oldCoords.1)
      case Some(_) =>
        var j := GetIndex(s1, oldCoords.0, oldCoords.1).value;
        s1.(tiles := ts[j := Tile(oldCoords.0, oldCoords.1, ts[j].id)])
      case None => s1
  }

  // ---------------------------------------------------------------------
  // Lookups

  /** In a consistent store, `get_index` finds exactly the tile whose stored
      coordinates are (x, y). */
  lemma GetIndexFindsTile(s: TileStorage, x: i32, y: i32, i: nat)
    requires Consistent(s)
    ensures GetIndex(s, x, y) == Some(i) <==> i < |s.tiles| && s.tiles[i].x == x && s.tiles[i].y == y
  {
    if GetIndex(s, x, y) == Some(i) {
      var c := CellIndex(s.dims, x, y);
      assert s.tilemap[c] == Some(i);
      CellIndexInjective(s.dims, x, y, s.tiles[i].x, s.tiles[i].y);
    }
    if i < |s.tiles| && s.tiles[i].x == x && s.tiles[i].y == y {
      assert s.tilemap[CellIndex(s.dims, s.tiles[i].x, s.tiles[i].y)] == Some(i);
    }
  }

  // ---------------------------------------------------------------------
  // Insert

  /** `insert` keeps the store well formed and the forward invariant. */
  lemma InsertPreservesForward(s: TileStorage, t: Tile)
    requires WellFormed(s) && Forward(s) && InGrid(s.dims, t.x, t.y)
    ensures WellFormed(Insert(s, t)) && Forward(Insert(s, t))
  {
    var r := Insert(s, t);
    var c := CellIndex(s.dims, t.x, t.y);
    assert forall i :: 0 <= i < |s.tiles| ==> r.tiles[i] == s.tiles[i];
    forall c' | 0 <= c' < |r.tilemap| && r.tilemap[c'].Some?
      ensures CellIndex(r.dims, r.tiles[r.tilemap[c'].value].x, r.tiles[r.tilemap[c'].value].y) == c'
    {
      if c' != c {
        assert r.tilemap[c'] == s.tilemap[c'];
      }
    }
  }

  /** Inserting onto an EMPTY cell keeps the store consistent. */
  lemma InsertOnEmptyKeepsConsistent(s: TileStorage, t: Tile)
    requires Consistent(s) && InGrid(s.dims, t.x, t.y) && GetIndex(s, t.x, t.y) == None
    ensures Consistent(Insert(s, t))
  {
    InsertPreservesForward(s, t);
    var r := Insert(s, t);
    var c := CellIndex(s.dims, t.x, t.y);
    forall i | 0 <= i < |r.tiles|
      ensures r.tilemap[CellIndex(r.dims, r.tiles[i].x, r.tiles[i].y)] == Some(i)
    {
      if i < |s.tiles| {
        assert r.tiles[i] == s.tiles[i];
        var ci := CellIndex(s.dims, s.tiles[i].x, s.tiles[i].y);
        assert s.tilemap[ci] == Some(i);
        assert ci != c;
      }
    }
  }

  /** Inserting onto an OCCUPIED cell orphans its tile: no map entry names it
      any more, so the backward invariant fails. */
  lemma InsertOnOccupiedOrphans(s: TileStorage, t: Tile, j: nat)
    requires Consistent(s) && InGrid(s.dims, t.x, t.y) && GetIndex(s, t.x, t.y) == Some(j)
    ensures WellFormed(Insert(s, t)) && !Backward(Insert(s, t))
    ensures forall c :: 0 <= c < |Insert(s, t).tilemap| ==> Insert(s, t).tilemap[c] != Some(j)
  {
    InsertPreservesForward(s, t);
    var r := Insert(s, t);
    var c := CellIndex(s.dims, t.x, t.y);
    GetIndexFindsTile(s, t.x, t.y, j);
    assert CellIndex(s.dims, s.tiles[j].x, s.tiles[j].y) == c;
    forall c' | 0 <= c' < |r.tilemap|
      ensures r.tilemap[c'] != Some(j)
    {
      if c' != c {
        assert r.tilemap[c'] == s.tilemap[c'];
      }
    }
    assert r.tiles[j] == s.tiles[j];
    assert r.tilemap[CellIndex(r.dims, r.tiles[j].x, r.tiles[j].y)] != Some(j);
  }

  // ---------------------------------------------------------------------
  // Swap

  /** Swapping the tile the map names at `oldCoords` keeps the forward
      invariant. */
  lemma SwapPreservesForward(s: TileStorage, k: nat, oldCoords: (nat, nat), newCoords: (i32, i32))
    requires WellFormed(s) && Forward(s) && InGrid(s.dims, oldCoords.0, oldCoords.1)
    requires s.tilemap[CellIndex(s.dims, oldCoords.0, oldCoords.1)] == Some(k)
    ensures WellFormed(Swap(s, k, oldCoords, newCoords)) && Forward(Swap(s, k, oldCoords, newCoords))
  {
    var r := Swap(s, k, oldCoords, newCoords);
    if InGrid(s.dims, newCoords.0, newCoords.1) {
      var oi := CellIndex(s.dims, oldCoords.0, oldCoords.1);
      var ni := CellIndex(s.dims, newCoords.0, newCoords.1);
      forall c | 0 <= c < |r.tilemap| && r.tilemap[c].Some?
        ensures CellIndex(r.dims, r.tiles[r.tilemap[c].value].x, r.tiles[r.tilemap[c].value].y) == c
      {
        var i := r.tilemap[c].value;
        if c != oi && c != ni {
          assert s.tilemap[c] == Some(i);
          assert CellIndex(s.dims, s.tiles[i].x, s.tiles[i].y) == c;
          assert r.tiles[i] == s.tiles[i];
        }
      }
    }
  }

  /** The on-grid case of `Swap`, spelled out: the map after the exchange,
      and the tile list after both coordinate rewrites. */
  lemma SwapUnfold(s: TileStorage, k: nat, oldCoords: (nat, nat), newCoords: (i32, i32))
    requires WellFormed(s) && k < |s.tiles| && InGrid(s.dims, oldCoords.0, oldCoords.1)
    requires InGrid(s.dims, newCoords.0, newCoords.1)
    ensures var oi := CellIndex(s.dims, oldCoords.0, oldCoords.1);
            var ni := CellIndex(s.dims, newCoords.0, newCoords.1);
            var r := Swap(s, k, oldCoords, newCoords);
            var ts := s.tiles[k := Tile(newCoords.0, newCoords.1, s.tiles[k].id)];
            && r.tilemap == s.tilemap[oi := s.tilemap[ni]][ni := s.tilemap[oi]]
            && r.tilemap[ni] == s.tilemap[oi]
            && (r.tilemap[oi].None? ==> r.tiles == ts)
            && (r.tilemap[oi].Some? ==>
                  r.tiles == ts[r.tilemap[oi].value := Tile(oldCoords.0, oldCoords.1, ts[r.tilemap[oi].value].id)])
  {
  }

  /** Swapping the tile the map names at `oldCoords` keeps the backward
      invariant. */
  lemma SwapPreservesBackward(s: TileStorage, k: nat, oldCoords: (nat, nat), newCoords: (i32, i32))
    requires WellFormed(s) && Backward(s) && InGrid(s.dims, oldCoords.0, oldCoords.1)
    requires s.tilemap[CellIndex(s.dims, oldCoords.0, oldCoords.1)] == Some(k)
    ensures WellFormed(Swap(s, k, oldCoords, newCoords)) && Backward(Swap(s, k, oldCoords, newCoords))
  {
    var r := Swap(s, k, oldCoords, newCoords);
    if InGrid(s.dims, newCoords.0, newCoords.1) {
      var oi := CellIndex(s.dims, oldCoords.0, oldCoords.1);
      var ni := CellIndex(s.dims, newCoords.0, newCoords.1);
      SwapUnfold(s, k, oldCoords, newCoords);
      forall i | 0 <= i < |r.tiles|
        ensures r.tilemap[CellIndex(r.dims, r.tiles[i].x, r.tiles[i].y)] == Some(i)
      {
        if r.tilemap[oi] == Some(i) {
          assert r.tiles[i].x == oldCoords.0 && r.tiles[i].y == oldCoords.1;
        } else if i == k {
          assert r.tiles[i].x == newCoords.0 && r.tiles[i].y == newCoords.1;
        } else {
          assert r.tiles[i] == s.tiles[i];
          var c := CellIndex(s.dims, s.tiles[i].x, s.tiles[i].y);
          assert s.tilemap[c] == Some(i);
          assert c != oi && c != ni;
        }
      }
    }
  }

  /** In a consistent store, swapping tile k away from its cell moves it to
      `newCoords`, moves the previous occupant of `newCoords` (if any) to
      `oldCoords`, and leaves every other tile where it was. */
  lemma SwapMovesBoth(s: TileStorage, k: nat, oldCoords: (nat, nat), newCoords: (i32, i32), r: TileStorage)
    requires Consistent(s) && k < |s.tiles| && s.tiles[k].x == oldCoords.0 && s.tiles[k].y == oldCoords.1
    requires InGrid(s.dims, newCoords.0, newCoords.1) && (oldCoords.0 != newCoords.0 || oldCoords.1 != newCoords.1)
    requires r == Swap(s, k, oldCoords, newCoords)
    ensures Consistent(r)
    ensures r.tiles[k] == Tile(newCoords.0, newCoords.1, s.tiles[k].id)
    ensures GetIndex(r, newCoords.0, newCoords.1) == Some(k)
    ensures GetIndex(r, oldCoords.0, oldCoords.1) == GetIndex(s, newCoords.0, newCoords.1)
    ensures forall j :: GetIndex(s, newCoords.0, newCoords.1) == Some(j) ==>
              r.tiles[j] == Tile(oldCoords.0, oldCoords.1, s.tiles[j].id)
    ensures forall i :: 0 <= i < |s.tiles| && i != k && Some(i) != GetIndex(s, newCoords.0, newCoords.1) ==>
              r.tiles[i] == s.tiles[i]
  {
    var oi := CellIndex(s.dims, oldCoords.0, oldCoords.1);
    var ni := CellIndex(s.dims, newCoords.0, newCoords.1);
    assert s.tilemap[oi] == Some(k);
    if oi == ni {
      CellIndexInjective(s.dims, oldCoords.0, oldCoords.1, newCoords.0, newCoords.1);
    }
    SwapPreservesForward(s, k, oldCoords, newCoords);
    SwapPreservesBackward(s, k, oldCoords, newCoords);
    SwapUnfold(s, k, oldCoords, newCoords);
  }
}
