/** Integer coordinate encoders: maps between grid coordinates (x, y) and
    row-major storage indices. `FlatEncoder` is bounded and reports off-grid
    coordinates as absent; `LoopingEncoder` wraps around every edge. */
module CoordinateEncoder {
  import opened MachineInts
  import opened Wrappers

  /** Grid dimensions `(width, height)`, both `u32` in the source. */
  datatype Dims = Dims(width: nat, height: nat)

  function Area(d: Dims): nat {
    d.width * d.height
  }

  /** Dimensions for which the source's `as i32` casts of the dimensions are
      exact and the u32 product `width * height` does not wrap. */
  predicate Fits(d: Dims) {
    d.width <= I32_MAX && d.height <= I32_MAX && Area(d) <= U32_MAX
  }

  /** Dimensions a `LoopingEncoder` can divide by. */
  predicate Proper(d: Dims) {
    Fits(d) && d.width > 0 && d.height > 0
  }

  /** `index as u32 % width`, `index as u32 / width`: the decode shared, with
      the same body, by both encoders (and by the Game of Life grid). */
  function Decode(d: Dims, index: nat): (r: (nat, nat))
    requires d.width > 0
    ensures index < Area(d) && Fits(d) ==> r.0 < d.width && r.1 < d.height
  {
    var i := AsU32(index);
    DecodeFacts(d, index);
    (i % d.width, i / d.width)
  }

  /** `FlatEncoder::encode`: `Some(y * width + x)` on the grid, `None` off it. */
  function FlatEncode(d: Dims, x: i32, y: i32): (r: Option<nat>)
    requires Fits(d)
    ensures r.Some? ==> r.value == y * d.width + x && r.value < Area(d)
  {
    if x >= 0 && x < d.width && y >= 0 && y < d.height then
      RowMajorBound(x, y, d.width, d.height);
      Some(AsU32(AsU32(y * d.width) + x))
    else
      None
  }

  /** `LoopingEncoder::encode`: negative coordinates are moved up by one
      dimension, a non-negative x is reduced modulo the width, and the final
      index is reduced modulo the area. The casts to u32 and the u32
      arithmetic wrap modulo 2^32 as in the source. */
  function LoopingEncode(d: Dims, x: i32, y: i32): (r: Option<nat>)
    requires Proper(d)
    ensures r.Some? && r.value < Area(d)
  {
    Some(LoopIndex(d, LoopX(d, x), LoopY(d, y)))
  }

  /** The x the looping encoder uses: the negative branch adds the width, the
      other branch reduces modulo the width. */
  function LoopX(d: Dims, x: i32): nat
    requires Proper(d)
  {
    if x < 0 then AsU32(d.width + x) else AsU32(x) % d.width
  }

  /** The y the looping encoder uses: only the negative branch wraps. */
  function LoopY(d: Dims, y: i32): nat
    requires Proper(d)
  {
    if y < 0 then AsU32(d.height + y) else AsU32(y)
  }

  /** `(y * width + x) as usize % (width * height) as usize` in u32 arithmetic. */
  function LoopIndex(d: Dims, x': nat, y': nat): (r: nat)
    requires Proper(d)
    ensures r < Area(d)
  {
    AsU32(AsU32(y' * d.width) + x') % Area(d)
  }

  // ---------------------------------------------------------------------
  // Arithmetic helpers

  lemma RowMajorBound(x: nat, y: nat, w: nat, h: nat)
    requires x < w && y < h
    ensures y * w + x < w * h
  {
    assert y * w <= (h - 1) * w;
  }

  lemma DivModUnique(a: nat, w: nat, q: nat, r: nat)
    requires 0 <= r < w && a == q * w + r
    ensures a / w == q && a % w == r
  {
    var q0, r0 := a / w, a % w;
    assert (q - q0) * w == r0 - r;
    if q - q0 >= 1 {
      MulMonotone(q - q0, w);
    } else if q0 - q >= 1 {
      MulMonotone(q0 - q, w);
    }
  }

  predicate DivModFacts(a: nat, w: nat, h: nat)
    requires w > 0
  {
    a % w < w && a / w < h && (a / w) * w + a % w == a
  }

  lemma DivModBound(a: nat, w: nat, h: nat)
    requires w > 0 && a < w * h
    ensures DivModFacts(a, w, h)
  {
  }

  lemma DecodeFacts(d: Dims, index: nat)
    requires d.width > 0
    ensures index < Area(d) && Fits(d) ==>
              AsU32(index) == index && DivModFacts(index, d.width, d.height)
  {
    if index < Area(d) && Fits(d) {
      DivModBound(index, d.width, d.height);
    }
  }

  lemma MulLe(a: nat, b: nat, w: nat)
    requires a <= b
    ensures a * w <= b * w
  {
    assert b * w == a * w + (b - a) * w;
  }

  lemma MulLt(a: nat, b: nat, w: nat)
    requires a < b && w > 0
    ensures a * w + w <= b * w
  {
    assert b * w == a * w + (b - a) * w;
    MulMonotone(b - a, w);
  }

  lemma MulMonotone(k: int, w: nat)
    requires k >= 1
    ensures k * w >= w
  {
  }

  // ---------------------------------------------------------------------
  // Properties

  /** The bounded encoder accepts exactly the grid cells. */
  lemma FlatEncodeDefinedIff(d: Dims, x: i32, y: i32)
    requires Fits(d)
    ensures FlatEncode(d, x, y).Some? <==> 0 <= x < d.width && 0 <= y < d.height
  {
  }

  /** Every index of the grid survives decode followed by encode. */
  lemma {:induction false} FlatRoundTripIndex(d: Dims, i: nat)
    requires Fits(d) && d.width > 0 && i < Area(d)
    ensures Decode(d, i).0 <= I32_MAX && Decode(d, i).1 <= I32_MAX
    ensures FlatEncode(d, Decode(d, i).0, Decode(d, i).1) == Some(i)
  {
    DecodeFacts(d, i);
    var (x, y) := Decode(d, i);
    assert x == i % d.width && y == i / d.width;
    assert y * d.width + x == i;
  }

  /** Every grid cell survives encode followed by decode. */
  lemma {:induction false} FlatRoundTripCoords(d: Dims, x: i32, y: i32)
    requires Fits(d) && 0 <= x < d.width && 0 <= y < d.height
    ensures Decode(d, FlatEncode(d, x, y).value) == (x, y)
  {
    var i := y * d.width + x;
    RowMajorBound(x, y, d.width, d.height);
    assert FlatEncode(d, x, y) == Some(i);
    DivModUnique(i, d.width, y, x);
    assert AsU32(i) == i;
  }

  /** Distinct grid cells have distinct bounded indices. */
  lemma {:induction false} FlatEncodeInjective(d: Dims, x1: i32, y1: i32, x2: i32, y2: i32)
    requires Fits(d) && FlatEncode(d, x1, y1).Some? && FlatEncode(d, x1, y1) == FlatEncode(d, x2, y2)
    ensures x1 == x2 && y1 == y2
  {
    FlatRoundTripCoords(d, x1, y1);
    FlatRoundTripCoords(d, x2, y2);
  }

  /** On the grid the looping encoder agrees with the bounded one. */
  lemma {:induction false} LoopingAgreesWithFlat(d: Dims, x: i32, y: i32)
    requires Proper(d) && 0 <= x < d.width && 0 <= y < d.height
    ensures LoopingEncode(d, x, y) == FlatEncode(d, x, y)
  {
    var i := y * d.width + x;
    RowMajorBound(x, y, d.width, d.height);
    DivModUnique(x, d.width, 0, x);
    DivModUnique(i, Area(d), 0, i);
    assert AsU32(y * d.width) == y * d.width;
  }

  /** The looping encoder wraps across the left edge, on every row. */
  lemma {:induction false} LoopingWrapsLeft(d: Dims, y: i32)
    requires Proper(d)
    ensures LoopingEncode(d, -1, y) == LoopingEncode(d, d.width - 1, y)
  {
    assert LoopX(d, -1) == d.width - 1;
    assert AsU32(d.width - 1) == d.width - 1;
    DivModUnique(d.width - 1, d.width, 0, d.width - 1);
    assert LoopX(d, d.width - 1) == d.width - 1;
  }

  /** The looping encoder wraps across the right edge, on every row. */
  lemma {:induction false} LoopingWrapsRight(d: Dims, y: i32)
    requires Proper(d)
    ensures LoopingEncode(d, d.width, y) == LoopingEncode(d, 0, y)
  {
    assert AsU32(d.width) == d.width;
    DivModUnique(d.width, d.width, 1, 0);
    assert LoopX(d, d.width) == 0;
    assert LoopX(d, 0) == 0;
  }

  /** The looping encoder wraps across the bottom edge, on every column. */
  lemma {:induction false} LoopingWrapsBottom(d: Dims, x: i32)
    requires Proper(d)
    ensures LoopingEncode(d, x, -1) == LoopingEncode(d, x, d.height - 1)
  {
    assert LoopY(d, -1) == LoopY(d, d.height - 1);
  }

  /** The looping encoder wraps across the top edge while
      `width * (height + 1)` still fits in a u32. */
  lemma {:induction false} LoopingWrapsTop(d: Dims, x: i32)
    requires Proper(d) && 0 <= x < d.width
    requires d.width * (d.height + 1) <= U32_MODULUS
    ensures LoopingEncode(d, x, d.height) == LoopingEncode(d, x, 0)
  {
    DivModUnique(x, d.width, 0, x);
    assert LoopX(d, x) == x;
    TopRowIndex(d, x);
  }

  lemma TopRowIndex(d: Dims, x: nat)
    requires Proper(d) && x < d.width
    requires d.width * (d.height + 1) <= U32_MODULUS
    ensures LoopIndex(d, x, d.height) == x && LoopIndex(d, x, 0) == x
  {
    var n := Area(d);
    assert d.height * d.width == n;
    assert d.width * (d.height + 1) == n + d.width;
    assert AsU32(n) == n;
    assert AsU32(n + x) == n + x;
    DivModUnique(n + x, n, 1, x);
    assert AsU32(0 * d.width) == 0;
    DivModUnique(x, n, 0, x);
  }
}
