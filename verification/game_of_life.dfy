/** Conway's Game of Life on a flat `bool` grid with its own wrapping
    encoder, an 8-neighbour count and a double-buffered synchronous update. */
module GameOfLife {
  import opened MachineInts
  import opened CoordinateEncoder

  datatype GoL = GoL(dims: Dims, tiles: seq<bool>)

  /** The shape `new` establishes: one cell per grid position. A grid with
      no columns or no rows is valid; it has no cells. */
  predicate Valid(g: GoL) {
    Fits(g.dims) && |g.tiles| == Area(g.dims)
  }

  /** `GoL::new`, with the random initial cell states given as `alive`. */
  function New(width: nat, height: nat, alive: nat -> bool): (g: GoL)
    requires Fits(Dims(width, height))
    ensures Valid(g) && g.dims == Dims(width, height)
    ensures forall i :: 0 <= i < |g.tiles| ==> g.tiles[i] == alive(i)
  {
    GoL(Dims(width, height), seq(width * height, i requires 0 <= i => alive(i)))
  }

  /** `GoL::encode`: negative coordinates move up by one dimension, the row-major
      index is reduced modulo the grid length. A non-negative x is NOT reduced
      modulo the width, so `x == width` spills into the next row. */
  function Encode(g: GoL, x: i32, y: i32): (r: nat)
    requires Fits(g.dims) && |g.tiles| > 0
    ensures r < |g.tiles|
  {
    GridIndex(g, WrapNeg(g.dims.width, x), WrapNeg(g.dims.height, y))
  }

  /** The evidently intended encoder: each coordinate is reduced modulo its
      own dimension before the row-major index, so every edge of the grid
      wraps, the right edge included. */
  function TorusEncode(g: GoL, x: i32, y: i32): (r: nat)
    requires Fits(g.dims) && |g.tiles| > 0
    ensures r < |g.tiles|
  {
    GridIndex(g, Wrap(g.dims.width, x), Wrap(g.dims.height, y))
  }

  /** `v` reduced modulo `dim`; a grid with no columns or rows has only 0. */
  function Wrap(dim: nat, v: int): (r: nat)
    ensures dim > 0 ==> r < dim
  {
    if dim == 0 then 0 else v % dim
  }

  /** The cell the neighbour count reads for (x, y): `encode` as written
      when `torus` is false, the wrapping encoder when it holds. The two
      differ only in how each coordinate is brought onto its axis. */
  function Neighbour(g: GoL, torus: bool, x: i32, y: i32): (r: nat)
    requires Fits(g.dims) && |g.tiles| > 0
    ensures r < |g.tiles|
  {
    GridIndex(g, Axis(torus, g.dims.width, x), Axis(torus, g.dims.height, y))
  }

  function Axis(torus: bool, dim: nat, v: i32): nat
    requires dim <= I32_MAX
  {
    if torus then Wrap(dim, v) else WrapNeg(dim, v)
  }

  /** `if v < 0 { (dim as i32 + v) as u32 } else { v as u32 }`. */
  function WrapNeg(dim: nat, v: i32): nat
    requires dim <= I32_MAX
  {
    if v < 0 then AsU32(dim + v) else AsU32(v)
  }

  /** `(y * width + x) as usize % tiles.len()` in u32 arithmetic. */
  function GridIndex(g: GoL, x': nat, y': nat): (r: nat)
    requires |g.tiles| > 0
    ensures r < |g.tiles|
  {
    RowMajorMod(g.dims.width, |g.tiles|, x', y')
  }

  function RowMajorMod(w: nat, n: nat, x': nat, y': nat): (r: nat)
    requires n > 0
    ensures r < n
  {
    AsU32(AsU32(y' * w) + x') % n
  }

  /** Without u32 wrap-around, the index is the plain row-major one modulo n. */
  lemma RowMajorModExact(w: nat, n: nat, x': nat, y': nat)
    requires n > 0 && y' * w + x' <= U32_MAX
    ensures RowMajorMod(w, n, x', y') == (y' * w + x') % n
  {
    assert AsU32(y' * w) == y' * w;
  }

  /** `GoL::decode`, the same row-major decode as the encoders'. */
  function DecodeCell(g: GoL, index: nat): (r: (nat, nat))
    requires Valid(g) && index < |g.tiles|
    ensures r.0 < g.dims.width && r.1 < g.dims.height
  {
    Decode(g.dims, index)
  }

  /** The eight offsets other than (0, 0), in the order the nested loops of
      `get_active_neighbor_count` visit them (horizontal outer, vertical inner). */
  const Offsets: seq<(int, int)> :=
    [(-1, -1), (-1, 0), (-1, 1), (0, -1), (0, 1), (1, -1), (1, 0), (1, 1)]

  function BoolToNat(b: bool): nat {
    if b then 1 else 0
  }

  /** The k-th neighbour offset. */
  function Offset(k: nat): (o: (int, int))
    requires k < |Offsets|
    ensures -1 <= o.0 <= 1 && -1 <= o.1 <= 1 && o != (0, 0)
  {
    Offsets[k]
  }

  /** The number of live cells among the first k neighbour offsets of (x, y),
      looked up through `encode` as written or, with `torus`, the wrapping one. */
  function CountFirst(g: GoL, torus: bool, x: nat, y: nat, k: nat): (n: nat)
    requires Fits(g.dims) && |g.tiles| > 0
    requires x < I32_MAX && y < I32_MAX
    requires k <= |Offsets|
    ensures n <= k
  {
    if k == 0 then 0
    else CountFirst(g, torus, x, y, k - 1) + BoolToNat(g.tiles[Neighbour(g, torus, x + Offset(k - 1).0, y + Offset(k - 1).1)])
  }

  /** The live-neighbour count the rules of the automaton use. */
  function LiveNeighbours(g: GoL, torus: bool, x: nat, y: nat): (n: nat)
    requires Fits(g.dims) && |g.tiles| > 0
    requires x < I32_MAX && y < I32_MAX
    ensures n <= 8
  {
    CountFirst(g, torus, x, y, |Offsets|)
  }

  /** `get_active_neighbor_count`: two nested loops over -1..2 that skip (0, 0). */
  method ActiveNeighbourCount(g: GoL, x: nat, y: nat) returns (count: nat)
    requires Fits(g.dims) && |g.tiles| > 0
    requires x < I32_MAX && y < I32_MAX
    ensures count == LiveNeighbours(g, false, x, y)
    ensures count <= 8
  {
    count := 0;
    var h := -1;
    while h < 2
      invariant -1 <= h <= 2
      invariant count == CountFirst(g, false, x, y, VisitedBefore(h))
    {
      var v := -1;
      while v < 2
        invariant -1 <= v <= 2
        invariant count == CountFirst(g, false, x, y, Position(h, v))
      {
        if !(h == 0 && v == 0) {
          CountStep(g, x, y, h, v);
          count := count + BoolToNat(g.tiles[Encode(g, x + h, y + v)]);
        }
        v := v + 1;
      }
      h := h + 1;
    }
  }

  /** How many offsets the loops have visited once they reach (h, v). */
  function Position(h: int, v: int): nat
    requires -1 <= h <= 2 && -1 <= v <= 2
  {
    VisitedBefore(h) + (if h == 0 && v > 0 then v else v + 1)
  }

  lemma OffsetOrder(h: int, v: int)
    requires -1 <= h <= 1 && -1 <= v <= 1 && !(h == 0 && v == 0)
    ensures Position(h, v) < |Offsets| && Offset(Position(h, v)) == (h, v)
    ensures Position(h, v + 1) == Position(h, v) + 1
    ensures v == 1 ==> Position(h, v + 1) == VisitedBefore(h + 1)
  {
  }

  lemma CountStep(g: GoL, x: nat, y: nat, h: int, v: int)
    requires Fits(g.dims) && |g.tiles| > 0
    requires x < I32_MAX && y < I32_MAX
    requires -1 <= h <= 1 && -1 <= v <= 1 && !(h == 0 && v == 0)
    ensures CountFirst(g, false, x, y, Position(h, v + 1)) ==
              CountFirst(g, false, x, y, Position(h, v)) + BoolToNat(g.tiles[Encode(g, x + h, y + v)])
  {
    OffsetOrder(h, v);
  }

  /** How many offsets the loops have visited before column h starts. */
  function VisitedBefore(h: int): nat
    requires -1 <= h <= 2
  {
    if h == -1 then 0 else if h == 0 then 3 else if h == 1 then 5 else 8
  }

  /** The next state of one cell, as `update` writes it. */
  function Rule(alive: bool, n: nat): bool {
    n == 3 || (alive && n == 2)
  }

  /** The next state of cell i: `Rule` with the neighbours counted on g. */
  function NextCell(g: GoL, torus: bool, i: nat): bool
    requires Valid(g) && i < |g.tiles|
  {
    var (x, y) := DecodeCell(g, i);
    Rule(g.tiles[i], LiveNeighbours(g, torus, x, y))
  }

  /** The next generation: every cell follows `Rule` with its neighbours
      counted on the PREVIOUS grid, through `encode` as written (`torus`
      false) or through the wrapping encoder (`torus` true). */
  function Next(g: GoL, torus: bool): (r: GoL)
    requires Valid(g)
    ensures Valid(r) && r.dims == g.dims
  {
    GoL(g.dims, seq(|g.tiles|, i requires 0 <= i < |g.tiles| => NextCell(g, torus, i)))
  }

  /** `GoL::update`: every cell is computed from the old grid into a buffer,
      which then replaces the grid. The viewport arguments are ignored. */
  method Update(g: GoL, width: i32, height: i32) returns (r: GoL)
    requires Valid(g)
    ensures r == Next(g, false)
  {
    var buffer := g.tiles;
    var index := 0;
    while index < |g.tiles|
      invariant 0 <= index <= |g.tiles|
      invariant |buffer| == |g.tiles|
      invariant forall i :: 0 <= i < index ==> buffer[i] == NextCell(g, false, i)
    {
      var (x, y) := DecodeCell(g, index);
      var n := ActiveNeighbourCount(g, x, y);
      buffer := buffer[index := n == 3 || (g.tiles[index] && n == 2)];
      index := index + 1;
    }
    r := g.(tiles := buffer);
    assert r.tiles == Next(g, false).tiles;
  }

  // ---------------------------------------------------------------------
  // Properties of the encoder

  /** On the grid, `encode` is the row-major index and `decode` inverts it. */
  lemma {:induction false} EncodeInGrid(g: GoL, x: i32, y: i32)
    requires Valid(g) && 0 <= x < g.dims.width && 0 <= y < g.dims.height
    ensures Encode(g, x, y) == y * g.dims.width + x
    ensures DecodeCell(g, Encode(g, x, y)) == (x, y)
  {
    RowMajorBound(x, y, g.dims.width, g.dims.height);
    var i := y * g.dims.width + x;
    assert AsU32(y * g.dims.width) == y * g.dims.width;
    assert AsU32(i) == i;
    DivModUnique(i, |g.tiles|, 0, i);
    assert Encode(g, x, y) == i;
    FlatRoundTripCoords(g.dims, x, y);
  }

  /** Negative coordinates wrap per axis, on every row and every column. */
  lemma {:induction false} EncodeWrapsNegative(g: GoL, x: i32, y: i32)
    requires Valid(g) && |g.tiles| > 0
    ensures Encode(g, -1, y) == Encode(g, g.dims.width - 1, y)
    ensures Encode(g, x, -1) == Encode(g, x, g.dims.height - 1)
  {
    assert WrapNeg(g.dims.width, -1) == WrapNeg(g.dims.width, g.dims.width - 1);
    assert WrapNeg(g.dims.height, -1) == WrapNeg(g.dims.height, g.dims.height - 1);
  }

  /** Row `height` wraps to row 0, through the final modulo alone, while
      `width * (height + 1)` fits in a u32. */
  lemma {:induction false} EncodeTopWraps(g: GoL, x: i32)
    requires Valid(g) && 0 <= x < g.dims.width && 0 < g.dims.height
    requires g.dims.width * (g.dims.height + 1) <= U32_MODULUS
    ensures Encode(g, x, g.dims.height) == Encode(g, x, 0)
  {
    var w, n := g.dims.width, |g.tiles|;
    assert WrapNeg(w, x) == x;
    assert WrapNeg(g.dims.height, g.dims.height) == g.dims.height;
    assert WrapNeg(g.dims.height, 0) == 0;
    assert g.dims.height * w + x == n + x <= U32_MAX by {
      assert w * (g.dims.height + 1) == n + w;
    }
    RowMajorModExact(w, n, x, g.dims.height);
    RowMajorModExact(w, n, x, 0);
    MulMonotone(g.dims.height, w);
    assert x < n;
    DivModUnique(n + x, n, 1, x);
    DivModUnique(x, n, 0, x);
  }

  /** Column `width` does NOT wrap to column 0 of the same row: it spills into
      column 0 of the next row (and the last row spills into row 0). */
  lemma {:induction false} EncodeRightEdgeSpills(g: GoL, y: i32)
    requires Valid(g) && 0 < g.dims.width && 0 <= y < g.dims.height
    requires g.dims.width * (g.dims.height + 1) <= U32_MODULUS
    ensures Encode(g, g.dims.width, y) == Encode(g, 0, y + 1)
    ensures g.dims.height >= 2 ==> Encode(g, g.dims.width, y) != Encode(g, 0, y)
  {
    var w, h, n := g.dims.width, g.dims.height, |g.tiles|;
    assert WrapNeg(w, w) == w && WrapNeg(w, 0) == 0;
    assert WrapNeg(h, y) == y && WrapNeg(h, y + 1) == y + 1;
    MulLe(y + 1, h, w);
    assert (y + 1) * w <= n;
    assert y * w + w == (y + 1) * w + 0 <= U32_MAX;
    RowMajorModExact(w, n, w, y);
    RowMajorModExact(w, n, 0, y + 1);
    RowMajorModExact(w, n, 0, y);
    MulMonotone(h, w);
    if h >= 2 {
      assert y * w < n;
      DivModUnique(y * w, n, 0, y * w);
      if y + 1 < h {
        MulLt(y + 1, h, w);
        DivModUnique((y + 1) * w, n, 0, (y + 1) * w);
      } else {
        DivModUnique(n, n, 1, 0);
        MulMonotone(y, w);
      }
    }
  }

  // ---------------------------------------------------------------------
  // Properties of the update

  /** The update follows Conway's B3/S23 rule: a live cell survives with two
      or three live neighbours, a dead cell is born with exactly three. */
  lemma ConwayRule(g: GoL, torus: bool, i: nat)
    requires Valid(g) && i < |g.tiles|
    ensures var (x, y) := DecodeCell(g, i);
            var n := LiveNeighbours(g, torus, x, y);
            Next(g, torus).tiles[i] <==> (if g.tiles[i] then n == 2 || n == 3 else n == 3)
  {
  }

  /** Under- and over-population: a cell with fewer than two or more than
      three live neighbours is dead in the next generation. */
  lemma LonelyOrCrowdedDies(g: GoL, torus: bool, i: nat)
    requires Valid(g) && i < |g.tiles|
    requires var (x, y) := DecodeCell(g, i);
             var n := LiveNeighbours(g, torus, x, y);
             n < 2 || n > 3
    ensures !Next(g, torus).tiles[i]
  {
  }

  predicate AllDead(g: GoL) {
    forall i :: 0 <= i < |g.tiles| ==> !g.tiles[i]
  }

  lemma {:induction false} NoLiveNeighbours(g: GoL, torus: bool, x: nat, y: nat, k: nat)
    requires Fits(g.dims) && |g.tiles| > 0 && AllDead(g)
    requires x < I32_MAX && y < I32_MAX && k <= |Offsets|
    ensures CountFirst(g, torus, x, y, k) == 0
  {
    if k > 0 {
      NoLiveNeighbours(g, torus, x, y, k - 1);
    }
  }

  /** An all-dead grid stays all-dead. */
  lemma {:induction false} DeadGridStaysDead(g: GoL, torus: bool)
    requires Valid(g) && AllDead(g)
    ensures AllDead(Next(g, torus))
  {
    forall i | 0 <= i < |g.tiles|
      ensures !Next(g, torus).tiles[i]
    {
      var (x, y) := DecodeCell(g, i);
      NoLiveNeighbours(g, torus, x, y, |Offsets|);
    }
  }

  /** A grid built with no columns or no rows has no cells, and `update`
      leaves it unchanged (its loop has nothing to visit). */
  lemma EmptyGridStaysEmpty(width: nat, height: nat, alive: nat -> bool)
    requires Fits(Dims(width, height)) && (width == 0 || height == 0)
    ensures New(width, height, alive).tiles == []
    ensures Next(New(width, height, alive), false) == New(width, height, alive)
  {
  }

  // ---------------------------------------------------------------------
  // The wrapping encoder

  /** On a non-empty grid the wrapping encoder is the row-major index of
      both coordinates taken modulo their dimensions. */
  lemma {:induction false} TorusEncodeModular(g: GoL, x: i32, y: i32)
    requires Valid(g) && |g.tiles| > 0
    ensures TorusEncode(g, x, y) == (y % g.dims.height) * g.dims.width + x % g.dims.width
  {
    var w, h, n := g.dims.width, g.dims.height, |g.tiles|;
    var x', y' := x % w, y % h;
    RowMajorBound(x', y', w, h);
    RowMajorModExact(w, n, x', y');
    DivModUnique(y' * w + x', n, 0, y' * w + x');
  }

  /** Every edge of the grid wraps to the opposite one: columns -1 and w are
      columns w-1 and 0, rows -1 and h are rows h-1 and 0, on every row and
      column, with no u32 bound needed. */
  lemma {:induction false} TorusWrapsEveryEdge(g: GoL, x: i32, y: i32)
    requires Valid(g) && |g.tiles| > 0
    ensures TorusEncode(g, g.dims.width, y) == TorusEncode(g, 0, y)
    ensures TorusEncode(g, -1, y) == TorusEncode(g, g.dims.width - 1, y)
    ensures TorusEncode(g, x, g.dims.height) == TorusEncode(g, x, 0)
    ensures TorusEncode(g, x, -1) == TorusEncode(g, x, g.dims.height - 1)
  {
    var w, h := g.dims.width, g.dims.height;
    DivModUnique(w, w, 1, 0);
    DivModUnique(h, h, 1, 0);
    WrapNegativeOne(w);
    WrapNegativeOne(h);
  }

  lemma WrapNegativeOne(dim: nat)
    requires dim > 0
    ensures Wrap(dim, -1) == Wrap(dim, dim - 1) == dim - 1
  {
    assert -1 == -1 * dim + (dim - 1);
  }

  /** On -1 and the grid's own range, reducing modulo the dimension and
      adding the dimension to a negative value give the same coordinate. */
  lemma WrapAgrees(dim: nat, v: i32)
    requires 0 < dim <= I32_MAX && -1 <= v < dim
    ensures Wrap(dim, v) == WrapNeg(dim, v)
  {
    if v < 0 {
      WrapNegativeOne(dim);
      assert WrapNeg(dim, v) == dim - 1;
    } else {
      DivModUnique(v, dim, 0, v);
      assert WrapNeg(dim, v) == v;
    }
  }

  /** The wrapping encoder agrees with `encode` as written on the grid and on
      the left and bottom borders; the two differ only from column w on. */
  lemma {:induction false} TorusAgreesLeftOfRightEdge(g: GoL, x: i32, y: i32)
    requires Valid(g) && |g.tiles| > 0
    requires -1 <= x < g.dims.width && -1 <= y < g.dims.height
    ensures TorusEncode(g, x, y) == Encode(g, x, y)
  {
    WrapAgrees(g.dims.width, x);
    WrapAgrees(g.dims.height, y);
  }

  // ---------------------------------------------------------------------
  // A 2×2 block of live cells

  /** Whether the neighbour at offset (dx, dy) of (x, y) is alive, as 0 or 1. */
  function LiveAt(g: GoL, torus: bool, x: nat, y: nat, dx: int, dy: int): nat
    requires Fits(g.dims) && |g.tiles| > 0
    requires x < I32_MAX && y < I32_MAX && -1 <= dx <= 1 && -1 <= dy <= 1
  {
    BoolToNat(g.tiles[Neighbour(g, torus, x + dx, y + dy)])
  }

  lemma CountNext(g: GoL, torus: bool, x: nat, y: nat, k: nat)
    requires Fits(g.dims) && |g.tiles| > 0
    requires x < I32_MAX && y < I32_MAX && k < |Offsets|
    ensures CountFirst(g, torus, x, y, k + 1) ==
              CountFirst(g, torus, x, y, k) + LiveAt(g, torus, x, y, Offset(k).0, Offset(k).1)
  {
  }

  lemma {:induction false} CountFirstHalf(g: GoL, torus: bool, x: nat, y: nat)
    requires Fits(g.dims) && |g.tiles| > 0
    requires x < I32_MAX && y < I32_MAX
    ensures CountFirst(g, torus, x, y, 4) ==
              LiveAt(g, torus, x, y, -1, -1) + LiveAt(g, torus, x, y, -1, 0) + LiveAt(g, torus, x, y, -1, 1) +
              LiveAt(g, torus, x, y, 0, -1)
  {
    CountFirstQuarter(g, torus, x, y);
    if torus {
      CountNext(g, true, x, y, 2);
      CountNext(g, true, x, y, 3);
    } else {
      CountNext(g, false, x, y, 2);
      CountNext(g, false, x, y, 3);
    }
  }

  lemma {:induction false} CountFirstQuarter(g: GoL, torus: bool, x: nat, y: nat)
    requires Fits(g.dims) && |g.tiles| > 0
    requires x < I32_MAX && y < I32_MAX
    ensures CountFirst(g, torus, x, y, 2) == LiveAt(g, torus, x, y, -1, -1) + LiveAt(g, torus, x, y, -1, 0)
  {
    if torus {
      CountNext(g, true, x, y, 0);
      CountNext(g, true, x, y, 1);
    } else {
      CountNext(g, false, x, y, 0);
      CountNext(g, false, x, y, 1);
    }
  }

  /** The neighbour count spelled out over the eight offsets. */
  lemma {:induction false} CountUnfolded(g: GoL, torus: bool, x: nat, y: nat)
    requires Fits(g.dims) && |g.tiles| > 0
    requires x < I32_MAX && y < I32_MAX
    ensures LiveNeighbours(g, torus, x, y) ==
              LiveAt(g, torus, x, y, -1, -1) + LiveAt(g, torus, x, y, -1, 0) + LiveAt(g, torus, x, y, -1, 1) +
              LiveAt(g, torus, x, y, 0, -1) + LiveAt(g, torus, x, y, 0, 1) +
              LiveAt(g, torus, x, y, 1, -1) + LiveAt(g, torus, x, y, 1, 0) + LiveAt(g, torus, x, y, 1, 1)
  {
    CountFirstHalf(g, torus, x, y);
    if torus {
      CountNext(g, true, x, y, 4);
      CountNext(g, true, x, y, 5);
      CountNext(g, true, x, y, 6);
      CountNext(g, true, x, y, 7);
    } else {
      CountNext(g, false, x, y, 4);
      CountNext(g, false, x, y, 5);
      CountNext(g, false, x, y, 6);
      CountNext(g, false, x, y, 7);
    }
  }

  /** The live cells in column dx of the 3×3 window around (x, y). */
  function ColumnLive(g: GoL, torus: bool, x: nat, y: nat, dx: int): nat
    requires Fits(g.dims) && |g.tiles| > 0
    requires x < I32_MAX && y < I32_MAX && -1 <= dx <= 1
  {
    LiveAt(g, torus, x, y, dx, -1) + LiveAt(g, torus, x, y, dx, 0) + LiveAt(g, torus, x, y, dx, 1)
  }

  /** The eight neighbours and the cell itself, counted column by column. */
  lemma {:induction false} CountByColumns(g: GoL, torus: bool, x: nat, y: nat)
    requires Fits(g.dims) && |g.tiles| > 0
    requires x < I32_MAX && y < I32_MAX
    ensures LiveNeighbours(g, torus, x, y) + LiveAt(g, torus, x, y, 0, 0) ==
              ColumnLive(g, torus, x, y, -1) + ColumnLive(g, torus, x, y, 0) + ColumnLive(g, torus, x, y, 1)
  {
    CountUnfolded(g, torus, x, y);
  }

  /** A 4×4 grid whose only live cells are (3, 1), (0, 1), (3, 2) and (0, 2):
      a 2×2 block on the torus, straddling the left and right edges. */
  const EdgeBlock: GoL := GoL(Dims(4, 4), seq(16, i => 4 <= i < 12 && (i % 4 == 0 || i % 4 == 3)))

  /** The window around (3, 0) through `encode` as written, column by
      column: nothing in column 2, (3, 1) in column 3, and in column 4, which
      lands on column 0 of the next row, (0, 1) and (0, 2). */
  lemma EdgeColumnLeft(g: GoL)
    requires g == EdgeBlock
    ensures ColumnLive(g, false, 3, 0, -1) == 0
  {
  }

  lemma EdgeColumnMiddle(g: GoL)
    requires g == EdgeBlock
    ensures ColumnLive(g, false, 3, 0, 0) == 1
    ensures LiveAt(g, false, 3, 0, 0, 0) == 0
  {
  }

  lemma EdgeColumnRight(g: GoL)
    requires g == EdgeBlock
    ensures ColumnLive(g, false, 3, 0, 1) == 2
  {
  }

  lemma {:induction false} EdgeCornerCount(g: GoL)
    requires g == EdgeBlock
    ensures LiveNeighbours(g, false, 3, 0) == 3
  {
    CountByColumns(g, false, 3, 0);
    EdgeColumnLeft(g);
    EdgeColumnMiddle(g);
    EdgeColumnRight(g);
  }

  /** As written, the edge-straddling block is not a still life: the dead
      cell (3, 0) sees (0, 1) through column 4 and (0, 2) through column 4 of
      row 1, three live neighbours in all, and is born. */
  lemma {:induction false} EdgeBlockBirthsCell()
    ensures Valid(EdgeBlock) && IsBlock(EdgeBlock, 3, 1)
    ensures DecodeCell(EdgeBlock, 3) == (3, 0) && !EdgeBlock.tiles[3]
    ensures LiveNeighbours(EdgeBlock, false, 3, 0) == 3
    ensures Next(EdgeBlock, false).tiles[3] && Next(EdgeBlock, false) != EdgeBlock
  {
    EdgeCornerCount(EdgeBlock);
    EdgeBlockShape();
    assert Next(EdgeBlock, false).tiles[3] != EdgeBlock.tiles[3];
  }

  /** Through the wrapping encoder, the same grid is a still life. */
  lemma {:induction false} EdgeBlockStillOnTorus()
    ensures Next(EdgeBlock, true) == EdgeBlock
  {
    EdgeBlockShape();
    BlockIsStillLife(EdgeBlock, 3, 1);
  }

  lemma EdgeBlockShape()
    ensures IsBlock(EdgeBlock, 3, 1)
  {
  }

  /** Whether coordinate c is one of the two consecutive coordinates a and
      a + 1 of a grid axis of length n, wrapping after n - 1. */
  predicate InPair(c: nat, a: nat, n: nat)
    requires n > 0
  {
    c == a || c == (a + 1) % n
  }

  /** The live cells of g are exactly a 2×2 block whose lower-left cell is
      (a, b), wrapping across the grid's edges. */
  predicate IsBlock(g: GoL, a: nat, b: nat) {
    0 < g.dims.width && 0 < g.dims.height && a < g.dims.width && b < g.dims.height &&
    forall i :: 0 <= i < |g.tiles| ==> (g.tiles[i] <==> InBlock(g.dims, a, b, i))
  }

  /** Whether the cell at row-major index i is one of the block's four cells. */
  predicate InBlock(d: Dims, a: nat, b: nat, i: nat)
    requires 0 < d.width && 0 < d.height
  {
    InPair(i % d.width, a, d.width) && InPair(i / d.width, b, d.height)
  }

  /** How many of c - 1, c, c + 1, reduced modulo n, are block coordinates. */
  function PairHits(c: nat, a: nat, n: nat): nat
    requires n > 0
  {
    BoolToNat(InPair((c - 1) % n, a, n)) + BoolToNat(InPair(c % n, a, n)) + BoolToNat(InPair((c + 1) % n, a, n))
  }

  /** On an axis of length at least 3 the window c - 1, c, c + 1 holds at most
      two block coordinates, and both when c is one of them. */
  lemma PairHitsBound(c: nat, a: nat, n: nat)
    requires 3 <= n && c < n && a < n
    ensures PairHits(c, a, n) <= 2
    ensures InPair(c, a, n) ==> PairHits(c, a, n) == 2
  {
    DivModUnique(c, n, 0, c);
    if c == 0 {
      DivModUnique(n - 1 + n * 0, n, 0, n - 1);
      assert (c - 1) % n == n - 1 by { assert c - 1 == -1 * n + (n - 1); }
    } else {
      DivModUnique(c - 1, n, 0, c - 1);
    }
    if c + 1 == n {
      DivModUnique(c + 1, n, 1, 0);
    } else {
      DivModUnique(c + 1, n, 0, c + 1);
    }
    if a + 1 == n {
      DivModUnique(a + 1, n, 1, 0);
    } else {
      DivModUnique(a + 1, n, 0, a + 1);
    }
  }

  /** Through the wrapping encoder, a neighbour of a block grid is alive
      exactly when its reduced column and row are both block coordinates. */
  lemma {:induction false} BlockLiveAt(g: GoL, a: nat, b: nat, x: nat, y: nat, dx: int, dy: int)
    requires Valid(g) && IsBlock(g, a, b)
    requires x < I32_MAX && y < I32_MAX && -1 <= dx <= 1 && -1 <= dy <= 1
    ensures LiveAt(g, true, x, y, dx, dy) ==
              BoolToNat(InPair((x + dx) % g.dims.width, a, g.dims.width) &&
                        InPair((y + dy) % g.dims.height, b, g.dims.height))
  {
    var w, h := g.dims.width, g.dims.height;
    var c, r := (x + dx) % w, (y + dy) % h;
    TorusEncodeModular(g, x + dx, y + dy);
    RowMajorBound(c, r, w, h);
    DivModUnique(r * w + c, w, r, c);
  }

  /** How many of the rows y - 1, y, y + 1, reduced modulo the height, are
      block rows. */
  function RowHits(g: GoL, b: nat, y: nat): nat
    requires 0 < g.dims.height
  {
    PairHits(y, b, g.dims.height)
  }

  /** One column of the 3×3 window around (x, y) of a block grid holds
      `RowHits` live cells when the column is a block column, none otherwise. */
  lemma {:induction false} BlockColumn(g: GoL, a: nat, b: nat, x: nat, y: nat, dx: int)
    requires Valid(g) && IsBlock(g, a, b)
    requires x < g.dims.width && y < g.dims.height && -1 <= dx <= 1
    ensures ColumnLive(g, true, x, y, dx) ==
              BoolToNat(InPair((x + dx) % g.dims.width, a, g.dims.width)) * RowHits(g, b, y)
    ensures dx == 0 ==>
              LiveAt(g, true, x, y, 0, 0) ==
              BoolToNat(InPair(x % g.dims.width, a, g.dims.width) && InPair(y % g.dims.height, b, g.dims.height))
  {
    BlockLiveAt(g, a, b, x, y, dx, -1);
    BlockLiveAt(g, a, b, x, y, dx, 0);
    BlockLiveAt(g, a, b, x, y, dx, 1);
  }

  /** The 3×3 window around (x, y), column by column: each block column holds
      `RowHits` live cells. */
  lemma {:induction false} BlockWindowSum(g: GoL, a: nat, b: nat, x: nat, y: nat)
    requires Valid(g) && IsBlock(g, a, b)
    requires x < g.dims.width && y < g.dims.height
    ensures var w := g.dims.width;
            LiveNeighbours(g, true, x, y) + LiveAt(g, true, x, y, 0, 0) ==
            (BoolToNat(InPair((x - 1) % w, a, w)) + BoolToNat(InPair((x + 0) % w, a, w)) +
             BoolToNat(InPair((x + 1) % w, a, w))) * RowHits(g, b, y)
  {
    var w := g.dims.width;
    CountByColumns(g, true, x, y);
    BlockColumn(g, a, b, x, y, -1);
    BlockColumn(g, a, b, x, y, 0);
    BlockColumn(g, a, b, x, y, 1);
    WindowTotal(LiveNeighbours(g, true, x, y), LiveAt(g, true, x, y, 0, 0),
                ColumnLive(g, true, x, y, -1), ColumnLive(g, true, x, y, 0), ColumnLive(g, true, x, y, 1),
                BoolToNat(InPair((x - 1) % w, a, w)), BoolToNat(InPair((x + 0) % w, a, w)),
                BoolToNat(InPair((x + 1) % w, a, w)), RowHits(g, b, y));
  }

  /** Through the wrapping encoder, a cell of a block grid together with its
      eight neighbours holds `PairHits` of its column times `PairHits` of its
      row live cells. */
  lemma {:induction false} BlockWindow(g: GoL, a: nat, b: nat, x: nat, y: nat)
    requires Valid(g) && IsBlock(g, a, b)
    requires x < g.dims.width && y < g.dims.height
    ensures LiveNeighbours(g, true, x, y) +
              BoolToNat(InPair(x % g.dims.width, a, g.dims.width) && InPair(y % g.dims.height, b, g.dims.height)) ==
            PairHits(x, a, g.dims.width) * PairHits(y, b, g.dims.height)
  {
    BlockWindowSum(g, a, b, x, y);
    BlockColumn(g, a, b, x, y, 0);
  }

  /** Three columns of a window holding `p * k`, `q * k` and `s * k` live
      cells hold `(p + q + s) * k` in all. */
  lemma WindowTotal(n: nat, centre: nat, l: nat, m: nat, r: nat, p: nat, q: nat, s: nat, k: nat)
    requires n + centre == l + m + r && l == p * k && m == q * k && r == s * k
    ensures n + centre == (p + q + s) * k
  {
  }

  /** One cell of a block grid keeps its state through the wrapping update:
      a block cell sees 2 × 2 - 1 = 3 live neighbours, and a dead cell sees a
      product of two numbers at most 2 that leaves out one of them, never 3. */
  lemma {:induction false} BlockCellStill(g: GoL, a: nat, b: nat, i: nat)
    requires Valid(g) && IsBlock(g, a, b) && i < |g.tiles|
    requires 3 <= g.dims.width && 3 <= g.dims.height
    ensures NextCell(g, true, i) == g.tiles[i]
  {
    var w, h := g.dims.width, g.dims.height;
    var (x, y) := DecodeCell(g, i);
    DivModUnique(x, w, 0, x);
    DivModUnique(y, h, 0, y);
    BlockWindow(g, a, b, x, y);
    PairHitsBound(x, a, w);
    PairHitsBound(y, b, h);
    StillRule(g.tiles[i], LiveNeighbours(g, true, x, y), PairHits(x, a, w), PairHits(y, b, h));
  }

  /** A cell whose window holds `cs * rs` live cells, itself included, with
      both factors at most 2 and both 2 when the cell is alive, keeps its
      state under `Rule`. */
  lemma StillRule(alive: bool, n: nat, cs: nat, rs: nat)
    requires n + BoolToNat(alive) == cs * rs && cs <= 2 && rs <= 2
    requires alive ==> cs == 2 && rs == 2
    ensures Rule(alive, n) == alive
  {
    assert cs == 0 || cs == 1 || cs == 2;
    assert rs == 0 || rs == 1 || rs == 2;
  }

  /** On the wrapping encoder, a 2×2 block is a still life on every grid of at
      least 3×3, wherever the block sits, across the edges included. */
  lemma {:induction false} BlockIsStillLife(g: GoL, a: nat, b: nat)
    requires Valid(g) && IsBlock(g, a, b)
    requires 3 <= g.dims.width && 3 <= g.dims.height
    ensures Next(g, true) == g
  {
    forall i | 0 <= i < |g.tiles|
      ensures Next(g, true).tiles[i] == g.tiles[i]
    {
      BlockCellStill(g, a, b, i);
    }
    assert Next(g, true).tiles == g.tiles;
  }
}
