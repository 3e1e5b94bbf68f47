/** The point quadtree the flocking simulation uses to find neighbours
    (packages/playground/src/quadtree.rs).

    The source computes in `f32`; the model computes in exact reals, and
    `sqrt(d) <= r` becomes `0 <= r && d <= r * r`. Insertion may subdivide a
    leaf and re-insert its points into the new children, which may subdivide
    again: `fuel` bounds that nesting, and an insertion that runs out of it
    returns `None`. */
module Quadtrees {
  import opened MachineInts
  import opened Wrappers

  datatype Point = Point(x: real, y: real)

  /** A rectangle by its lower-left corner and its size. */
  datatype Rect = Rect(x: real, y: real, width: real, height: real)

  /** A query circle `(x, y, radius)`. */
  datatype Circle = Circle(x: real, y: real, radius: real)

  /** A stored point with the index of the boid it belongs to. */
  type Entry = (Point, nat)

  /** A node. A leaf has `divided == false`, no children, and `points` is
      `None` until its first insertion; an inner node has `divided == true`,
      four children, and `points == None`. */
  datatype Quadtree = Quadtree(
    rect: Rect,
    capacity: i16,
    points: Option<seq<Entry>>,
    divided: bool,
    nw: Option<Quadtree>,
    sw: Option<Quadtree>,
    ne: Option<Quadtree>,
    se: Option<Quadtree>)

  // ---------------------------------------------------------------- geometry

  /** `Rectangle::contains`: membership in the half-open rectangle
      [x, x + width) × [y, y + height). Only a rectangle of positive size
      contains anything. */
  predicate Contains(r: Rect, p: Point)
    ensures Contains(r, p) ==> r.width > 0.0 && r.height > 0.0
  {
    p.x >= r.x && r.x + r.width > p.x && p.y >= r.y && r.y + r.height > p.y
  }

  function Abs(v: real): (r: real)
    ensures r >= 0.0 && (r == v || r == -v)
  {
    if v < 0.0 then -v else v
  }

  /** Real multiplication behind a name, so that the solver treats a square
      as a product of two arguments. */
  function Mul(a: real, b: real): real {
    a * b
  }

  function Sq(v: real): real {
    Mul(v, v)
  }

  /** The box-circle overlap test of the source, taking `(ox, oy)` as the
      centre of a box of size `w` × `h`. */
  predicate CircleMeetsBox(ox: real, oy: real, w: real, h: real, c: Circle) {
    var dx := Abs(c.x - ox);
    var dy := Abs(c.y - oy);
    if dx > w / 2.0 + c.radius then false
    else if dy > h / 2.0 + c.radius then false
    else if dx <= w / 2.0 then true
    else if dy <= h / 2.0 then true
    else Sq(dx - w / 2.0) + Sq(dy - h / 2.0) <= Sq(c.radius)
  }

  /** The point the overlap test takes as the box's centre: the corner
      `(x, y)` as written, the real centre `(x + width / 2, y + height / 2)`
      with `centred`. */
  function TestedCentre(r: Rect, centred: bool): Point {
    if centred then Point(r.x + r.width / 2.0, r.y + r.height / 2.0) else Point(r.x, r.y)
  }

  /** `intersectCircle`: as written (`centred == false`) the test is applied
      with the rectangle's corner in the place of its centre; `centred ==
      true` is the corrected test. Either way it accepts only circles whose
      bounding square overlaps the box of size width × height around the
      tested centre, and it accepts every circle of non-negative radius
      whose own centre lies in that box. */
  predicate Touches(r: Rect, c: Circle, centred: bool)
    ensures var o := TestedCentre(r, centred);
            Touches(r, c, centred) ==>
              Abs(c.x - o.x) <= r.width / 2.0 + c.radius && Abs(c.y - o.y) <= r.height / 2.0 + c.radius
    ensures var o := TestedCentre(r, centred);
            0.0 <= c.radius && Abs(c.x - o.x) <= r.width / 2.0 && Abs(c.y - o.y) <= r.height / 2.0 ==>
              Touches(r, c, centred)
  {
    var o := TestedCentre(r, centred);
    CircleMeetsBox(o.x, o.y, r.width, r.height, c)
  }

  /** `sqrt((p.x - c.x)^2 + (p.y - c.y)^2) <= c.radius`. */
  predicate InRadius(p: Point, c: Circle) {
    0.0 <= c.radius && Sq(p.x - c.x) + Sq(p.y - c.y) <= Sq(c.radius)
  }

  /** The four children of an inner node. */
  datatype Quadrant = NW | NE | SW | SE

  /** The quarter of `r` that `subdivide` gives the child in quadrant `q`. */
  function Quarter(r: Rect, q: Quadrant): (s: Rect)
    ensures s.width == r.width / 2.0 && s.height == r.height / 2.0
  {
    match q
    case SW => Rect(r.x, r.y, r.width / 2.0, r.height / 2.0)
    case NW => Rect(r.x, r.y + r.height / 2.0, r.width / 2.0, r.height / 2.0)
    case SE => Rect(r.x + r.width / 2.0, r.y, r.width / 2.0, r.height / 2.0)
    case NE => Rect(r.x + r.width / 2.0, r.y + r.height / 2.0, r.width / 2.0, r.height / 2.0)
  }

  function Indicator(b: bool): nat {
    if b then 1 else 0
  }

  /** How many quadrants of `qs` have a quarter of `r` containing `p`. */
  function Hits(r: Rect, qs: seq<Quadrant>, p: Point): (n: nat)
    ensures n <= |qs|
  {
    if |qs| == 0 then 0 else Indicator(Contains(Quarter(r, qs[0]), p)) + Hits(r, qs[1..], p)
  }

  lemma HitsStep(r: Rect, qs: seq<Quadrant>, p: Point)
    requires |qs| > 0
    ensures Hits(r, qs, p) == Indicator(Contains(Quarter(r, qs[0]), p)) + Hits(r, qs[1..], p)
  {
  }

  /** The order in which `insert` tries the children. */
  const InsertOrder: seq<Quadrant> := [NW, NE, SW, SE]

  /** The order in which `subdivide` offers each point to the children. */
  const SubdivideOrder: seq<Quadrant> := [NE, SE, NW, SW]

  /** The rectangle is [x, x + width) × [y, y + height): it holds its lower-left
      corner and no point of its right or top edge. */
  lemma ContainsHalfOpen(r: Rect)
    requires r.width > 0.0 && r.height > 0.0
    ensures Contains(r, Point(r.x, r.y))
    ensures !Contains(r, Point(r.x + r.width, r.y))
    ensures !Contains(r, Point(r.x, r.y + r.height))
    ensures !Contains(r, Point(r.x + r.width, r.y + r.height))
  {
  }

  /** The four quarters partition the rectangle: a point of the rectangle lies
      in exactly one of them, and a point outside lies in none. */
  lemma QuartersPartition(r: Rect, p: Point)
    ensures Hits(r, InsertOrder, p) == Indicator(Contains(r, p))
    ensures Hits(r, SubdivideOrder, p) == Indicator(Contains(r, p))
  {
    HitsOfFour(r, NW, NE, SW, SE, p);
    HitsOfFour(r, NE, SE, NW, SW, p);
    QuartersCover(r, p);
  }

  lemma QuartersCover(r: Rect, p: Point)
    ensures Indicator(Contains(Quarter(r, NW), p)) + Indicator(Contains(Quarter(r, NE), p))
          + Indicator(Contains(Quarter(r, SW), p)) + Indicator(Contains(Quarter(r, SE), p))
         == Indicator(Contains(r, p))
  {
    var mx, my := r.x + r.width / 2.0, r.y + r.height / 2.0;
    assert Contains(Quarter(r, SW), p) <==> p.x >= r.x && mx > p.x && p.y >= r.y && my > p.y;
    assert Contains(Quarter(r, NW), p) <==> p.x >= r.x && mx > p.x && p.y >= my && r.y + r.height > p.y;
    assert Contains(Quarter(r, SE), p) <==> p.x >= mx && r.x + r.width > p.x && p.y >= r.y && my > p.y;
    assert Contains(Quarter(r, NE), p) <==> p.x >= mx && r.x + r.width > p.x && p.y >= my && r.y + r.height > p.y;
  }

  lemma HitsOfFour(r: Rect, a: Quadrant, b: Quadrant, c: Quadrant, d: Quadrant, p: Point)
    ensures Hits(r, [a, b, c, d], p)
         == Indicator(Contains(Quarter(r, a), p)) + Indicator(Contains(Quarter(r, b), p))
          + Indicator(Contains(Quarter(r, c), p)) + Indicator(Contains(Quarter(r, d), p))
  {
    assert [a, b, c, d][1..] == [b, c, d];
    assert [b, c, d][1..] == [c, d];
    assert [c, d][1..] == [d];
    assert [d][1..] == [];
    assert Hits(r, [d], p) == Indicator(Contains(Quarter(r, d), p));
    assert Hits(r, [c, d], p) == Indicator(Contains(Quarter(r, c), p)) + Hits(r, [d], p);
    assert Hits(r, [b, c, d], p) == Indicator(Contains(Quarter(r, b), p)) + Hits(r, [c, d], p);
  }

  /** With the centre in its place the overlap test never rejects a box that
      holds a point of the circle. */
  lemma CentredTouchComplete(r: Rect, c: Circle, p: Point)
    requires Contains(r, p) && InRadius(p, c)
    ensures Touches(r, c, true)
  {
    var ox, oy := r.x + r.width / 2.0, r.y + r.height / 2.0;
    var dx, dy := Abs(c.x - ox), Abs(c.y - oy);
    var ex, ey := Abs(p.x - c.x), Abs(p.y - c.y);
    assert Abs(p.x - ox) <= r.width / 2.0 && Abs(p.y - oy) <= r.height / 2.0;
    SquareAbs(p.x - c.x);
    SquareAbs(p.y - c.y);
    SquareMonotone(0.0, Abs(p.x - c.x));
    SquareMonotone(0.0, Abs(p.y - c.y));
    SqrtBound(ex, Sq(p.y - c.y), c.radius);
    SqrtBound(ey, Sq(p.x - c.x), c.radius);
    assert dx <= ex + r.width / 2.0;
    assert dy <= ey + r.height / 2.0;
    if dx > r.width / 2.0 && dy > r.height / 2.0 {
      SquareMonotone(dx - r.width / 2.0, ex);
      SquareMonotone(dy - r.height / 2.0, ey);
    }
  }

  lemma MulMonotone(a: real, b: real, c: real)
    requires a <= b && 0.0 <= c
    ensures Mul(a, c) <= Mul(b, c)
  {
  }

  lemma MulStrict(a: real, b: real, c: real)
    requires a < b && 0.0 < c
    ensures Mul(a, c) < Mul(b, c)
  {
  }

  lemma MulCommutes(a: real, b: real)
    ensures Mul(a, b) == Mul(b, a)
  {
  }

  lemma SquareAbs(v: real)
    ensures Sq(Abs(v)) == Sq(v)
  {
    assert Mul(-v, -v) == Mul(v, v);
  }

  lemma SquareMonotone(a: real, b: real)
    requires 0.0 <= a <= b
    ensures Sq(a) <= Sq(b)
  {
    MulMonotone(a, b, a);
    MulMonotone(a, b, b);
    MulCommutes(a, b);
  }

  lemma SquareStrict(a: real, b: real)
    requires 0.0 <= a < b
    ensures Sq(a) < Sq(b)
  {
    MulMonotone(a, b, a);
    MulStrict(a, b, b);
    MulCommutes(a, b);
  }

  /** A leg of a right triangle is no longer than a bound on its hypotenuse. */
  lemma SqrtBound(e: real, other: real, r: real)
    requires 0.0 <= e && 0.0 <= other && 0.0 <= r && Sq(e) + other <= Sq(r)
    ensures e <= r
  {
    if e > r {
      SquareStrict(r, e);
    }
  }

  // ------------------------------------------------------------------ shape

  /** Leaf XOR inner node, everywhere in the tree: what the source's `unwrap`s
      on children rely on. */
  predicate Shaped(t: Quadtree)
    decreases t
  {
    if t.divided then
      && t.points.None?
      && t.nw.Some? && t.sw.Some? && t.ne.Some? && t.se.Some?
      && Shaped(t.nw.value) && Shaped(t.sw.value) && Shaped(t.ne.value) && Shaped(t.se.value)
    else
      t.nw.None? && t.sw.None? && t.ne.None? && t.se.None?
  }

  /** The most points a leaf can hold: `capacity as usize`, but the first
      point is always taken. */
  function LeafLimit(capacity: i16): (n: nat)
    ensures n >= 1
    ensures capacity >= 1 ==> n == capacity
  {
    if AsU32(capacity) == 0 then 1 else AsU32(capacity)
  }

  /** The invariant `new` establishes and `insert` keeps: the tree is shaped,
      each child covers its quarter of its parent with its parent's capacity,
      each leaf holds no more than its limit, and every stored point lies in
      its leaf's rectangle. */
  predicate Good(t: Quadtree)
    decreases t
  {
    if t.divided then
      && t.points.None?
      && t.nw.Some? && t.sw.Some? && t.ne.Some? && t.se.Some?
      && t.nw.value.rect == Quarter(t.rect, NW) && t.ne.value.rect == Quarter(t.rect, NE)
      && t.sw.value.rect == Quarter(t.rect, SW) && t.se.value.rect == Quarter(t.rect, SE)
      && t.nw.value.capacity == t.capacity && t.ne.value.capacity == t.capacity
      && t.sw.value.capacity == t.capacity && t.se.value.capacity == t.capacity
      && Good(t.nw.value) && Good(t.sw.value) && Good(t.ne.value) && Good(t.se.value)
    else
      && t.nw.None? && t.sw.None? && t.ne.None? && t.se.None?
      && (t.points.Some? ==> LeafHolds(t.rect, t.capacity, t.points.value))
  }

  predicate LeafHolds(r: Rect, capacity: i16, ps: seq<Entry>) {
    && |ps| <= LeafLimit(capacity)
    && forall i :: 0 <= i < |ps| ==> Contains(r, ps[i].0)
  }

  lemma {:induction false} GoodIsShaped(t: Quadtree)
    requires Good(t)
    ensures Shaped(t)
    decreases t
  {
    if t.divided {
      GoodIsShaped(t.nw.value);
      GoodIsShaped(t.sw.value);
      GoodIsShaped(t.ne.value);
      GoodIsShaped(t.se.value);
    }
  }

  /** Every leaf of `t` holds at most `n` points. */
  predicate LeavesAtMost(t: Quadtree, n: nat)
    decreases t
  {
    && (t.points.Some? ==> |t.points.value| <= n)
    && (t.nw.Some? ==> LeavesAtMost(t.nw.value, n))
    && (t.sw.Some? ==> LeavesAtMost(t.sw.value, n))
    && (t.ne.Some? ==> LeavesAtMost(t.ne.value, n))
    && (t.se.Some? ==> LeavesAtMost(t.se.value, n))
  }

  /** With a capacity of at least one, no leaf anywhere in the tree holds
      more points than the capacity. */
  lemma {:induction false} LeavesWithinCapacity(t: Quadtree)
    requires Good(t) && t.capacity >= 1
    ensures LeavesAtMost(t, t.capacity)
    decreases t
  {
    if t.divided {
      LeavesWithinCapacity(t.nw.value);
      LeavesWithinCapacity(t.sw.value);
      LeavesWithinCapacity(t.ne.value);
      LeavesWithinCapacity(t.se.value);
    }
  }

  /** The number of nodes, as a termination measure. */
  function Size(t: Quadtree): (n: nat)
    ensures n >= 1
    decreases t
  {
    1 + OptSize(t.nw) + OptSize(t.sw) + OptSize(t.ne) + OptSize(t.se)
  }

  function OptSize(o: Option<Quadtree>): nat
    decreases o
  {
    match o
    case None => 0
    case Some(c) => Size(c)
  }

  lemma ChildrenSmaller(t: Quadtree)
    requires t.nw.Some? && t.sw.Some? && t.ne.Some? && t.se.Some?
    ensures Size(t.nw.value) < Size(t) && Size(t.sw.value) < Size(t)
    ensures Size(t.ne.value) < Size(t) && Size(t.se.value) < Size(t)
  {
  }

  /** Every stored entry of the tree, with multiplicity. */
  function Stored(t: Quadtree): multiset<Entry>
    decreases t
  {
    (if t.points.Some? then multiset(t.points.value) else multiset{})
      + OptStored(t.nw) + OptStored(t.sw) + OptStored(t.ne) + OptStored(t.se)
  }

  function OptStored(o: Option<Quadtree>): multiset<Entry>
    decreases o
  {
    match o
    case None => multiset{}
    case Some(c) => Stored(c)
  }

  // -------------------------------------------------------- construction

  /** `Quadtree::new`: an empty leaf. */
  function New(capacity: i16, rect: Rect): (t: Quadtree)
    ensures t.rect == rect && t.capacity == capacity
    ensures !t.divided && t.points.None?
    ensures Good(t) && Stored(t) == multiset{}
  {
    Quadtree(rect, capacity, None, false, None, None, None, None)
  }

  /** `reset`: drops the children and clears `divided`, and keeps `points`. */
  function Reset(t: Quadtree): (r: Quadtree)
    ensures !r.divided && r.nw.None? && r.sw.None? && r.ne.None? && r.se.None?
    ensures r.rect == t.rect && r.capacity == t.capacity && r.points == t.points
  {
    t.(divided := false, nw := None, sw := None, ne := None, se := None)
  }

  /** Reset keeps the invariant. An inner node comes back as the empty leaf
      `new` would build, so every stored point is dropped; a leaf comes back
      unchanged with its points. */
  lemma ResetKeepsGood(t: Quadtree)
    requires Good(t)
    ensures Good(Reset(t))
    ensures t.divided ==> Reset(t) == New(t.capacity, t.rect) && Stored(Reset(t)) == multiset{}
    ensures !t.divided ==> Reset(t) == t
  {
  }

  /** `set_dimensions`: the root's width and height, and nothing else. */
  function SetDimensions(t: Quadtree, width: real, height: real): (r: Quadtree)
    ensures r.rect.x == t.rect.x && r.rect.y == t.rect.y
    ensures r.rect.width == width && r.rect.height == height
    ensures r.capacity == t.capacity && r.points == t.points && r.divided == t.divided
    ensures r.nw == t.nw && r.sw == t.sw && r.ne == t.ne && r.se == t.se
  {
    t.(rect := t.rect.(width := width, height := height))
  }

  /** Resizing keeps every stored entry. On an empty leaf it gives the tree
      `new` would build for the new size; on an inner node whose size really
      changes it breaks the invariant, since the children still cover the
      quarters of the old rectangle. */
  lemma SetDimensionsEffect(t: Quadtree, width: real, height: real)
    ensures Stored(SetDimensions(t, width, height)) == Stored(t)
    ensures t == New(t.capacity, t.rect) ==>
              SetDimensions(t, width, height) == New(t.capacity, Rect(t.rect.x, t.rect.y, width, height))
    ensures Good(t) && t.divided && (width != t.rect.width || height != t.rect.height) ==>
              !Good(SetDimensions(t, width, height))
  {
    var r := SetDimensions(t, width, height);
    if Good(t) && t.divided && (width != t.rect.width || height != t.rect.height) {
      assert Quarter(r.rect, SW) != Quarter(t.rect, SW);
    }
  }

  // --------------------------------------------------------------- insert

  function Child(t: Quadtree, q: Quadrant): Option<Quadtree> {
    match q
    case NW => t.nw
    case NE => t.ne
    case SW => t.sw
    case SE => t.se
  }

  function WithChild(t: Quadtree, q: Quadrant, x: Quadtree): (r: Quadtree)
    ensures Child(r, q) == Some(x)
  {
    match q
    case NW => t.(nw := Some(x))
    case NE => t.(ne := Some(x))
    case SW => t.(sw := Some(x))
    case SE => t.(se := Some(x))
  }

  lemma ChildSmaller(t: Quadtree, q: Quadrant)
    requires Child(t, q).Some?
    ensures Size(Child(t, q).value) < Size(t)
  {
  }

  /** An inner node of the invariant has every child, each over its quarter
      and each keeping the invariant. */
  lemma InnerChild(t: Quadtree, q: Quadrant)
    requires Good(t) && t.divided
    ensures Child(t, q).Some? && Good(Child(t, q).value)
    ensures Child(t, q).value.rect == Quarter(t.rect, q)
    ensures Child(t, q).value.capacity == t.capacity
  {
  }

  /** Replacing a child of an inner node by a tree over the same quarter that
      stores `m` more keeps the invariant, and the node stores `m` more. */
  lemma Graft(t: Quadtree, q: Quadrant, x: Quadtree, m: multiset<Entry>)
    requires Good(t) && t.divided && Good(x) && x.rect == Quarter(t.rect, q) && x.capacity == t.capacity
    requires Child(t, q).Some? && Stored(x) == Stored(Child(t, q).value) + m
    ensures Good(WithChild(t, q, x)) && WithChild(t, q, x).divided
    ensures WithChild(t, q, x).rect == t.rect && WithChild(t, q, x).capacity == t.capacity
    ensures Stored(WithChild(t, q, x)) == Stored(t) + m
  {
    var s := WithChild(t, q, x);
    var a, b, c, d := Stored(t.nw.value), Stored(t.sw.value), Stored(t.ne.value), Stored(t.se.value);
    StoredInner(t);
    StoredInner(s);
    match q
    case NW => SumWithOneGrown(a, b, c, d, Stored(x), m);
    case SW => SumWithOneGrown(b, a, c, d, Stored(x), m);
    case NE => SumWithOneGrown(c, a, b, d, Stored(x), m);
    case SE => SumWithOneGrown(d, a, b, c, Stored(x), m);
  }

  lemma StoredInner(t: Quadtree)
    requires t.points.None? && t.nw.Some? && t.sw.Some? && t.ne.Some? && t.se.Some?
    ensures Stored(t) == Stored(t.nw.value) + Stored(t.sw.value) + Stored(t.ne.value) + Stored(t.se.value)
  {
    assert OptStored(t.nw) == Stored(t.nw.value);
    assert OptStored(t.sw) == Stored(t.sw.value);
    assert OptStored(t.ne) == Stored(t.ne.value);
    assert OptStored(t.se) == Stored(t.se.value);
  }

  /** Growing one term of a sum of four by `m` grows the sum by `m`, wherever
      the term stands. */
  lemma SumWithOneGrown<T>(a: multiset<T>, b: multiset<T>, c: multiset<T>, d: multiset<T>,
                           a2: multiset<T>, m: multiset<T>)
    requires a2 == a + m
    ensures a2 + b + c + d == a + b + c + d + m
    ensures b + a2 + c + d == b + a + c + d + m
    ensures b + c + a2 + d == b + c + a + d + m
    ensures b + c + d + a2 == b + c + d + a + m
  {
  }

  function Added(ok: bool, e: Entry): multiset<Entry> {
    if ok then multiset{e} else multiset{}
  }

  /** Adding the entry once if `ok` and then `n` more times adds it
      `Indicator(ok) + n` times. */
  lemma CopiesChain(a: multiset<Entry>, b: multiset<Entry>, c: multiset<Entry>, ok: bool, e: Entry, n: nat)
    requires b == a + Added(ok, e) && c == b + multiset{}[e := n]
    ensures c == a + multiset{}[e := Indicator(ok) + n]
  {
  }

  /** Offering `e` to the first child adds it once if that quarter contains
      the point; offering it to the others adds it once per further hit. */
  lemma OfferCopies(a: multiset<Entry>, b: multiset<Entry>, c: multiset<Entry>, r: Rect, qs: seq<Quadrant>, ok: bool, e: Entry)
    requires |qs| > 0 && (ok <==> Contains(Quarter(r, qs[0]), e.0))
    requires b == a + Added(ok, e) && c == b + multiset{}[e := Hits(r, qs[1..], e.0)]
    ensures c == a + multiset{}[e := Hits(r, qs, e.0)]
  {
    CopiesChain(a, b, c, ok, e, Hits(r, qs[1..], e.0));
    HitsStep(r, qs, e.0);
  }

  /** `insert`: `None` when subdivisions nest deeper than `fuel`; otherwise
      whether the point was taken and the new tree. A point is taken exactly
      when the root's rectangle contains it, and then the tree holds one more
      copy of the entry and nothing else changes in what it stores. */
  function Insert(t: Quadtree, p: Point, id: nat, fuel: nat): (r: Option<(bool, Quadtree)>)
    requires Good(t)
    ensures !Contains(t.rect, p) ==> r == Some((false, t))
    ensures r.Some? ==> (r.value.0 <==> Contains(t.rect, p))
    ensures r.Some? ==> Good(r.value.1) && r.value.1.rect == t.rect && r.value.1.capacity == t.capacity
    ensures r.Some? ==> Stored(r.value.1) == Stored(t) + Added(r.value.0, (p, id))
    decreases fuel, 0, Size(t), 5
  {
    QuartersPartition(t.rect, p);
    if !Contains(t.rect, p) then Some((false, t))
    else if t.divided then TryChildren(t, InsertOrder, p, id, fuel)
    else if t.points.None? then
      LeafGrows(t, [(p, id)], (p, id));
      Some((true, t.(points := Some([(p, id)]))))
    else if |t.points.value| < AsU32(t.capacity) then
      LeafGrows(t, t.points.value + [(p, id)], (p, id));
      Some((true, t.(points := Some(t.points.value + [(p, id)]))))
    else if fuel == 0 then None
    else
      var s :- Subdivide(t, fuel - 1);
      TryChildren(s, InsertOrder, p, id, fuel - 1)
  }

  /** The two leaf cases of `insert`: a first point, or one more point below
      the capacity. */
  lemma LeafGrows(t: Quadtree, ps: seq<Entry>, e: Entry)
    requires Good(t) && !t.divided && Contains(t.rect, e.0)
    requires || (t.points.None? && ps == [e])
             || (t.points.Some? && |t.points.value| < AsU32(t.capacity) && ps == t.points.value + [e])
    ensures Good(t.(points := Some(ps)))
    ensures Stored(t.(points := Some(ps))) == Stored(t) + multiset{e}
  {
    var s := t.(points := Some(ps));
    assert Stored(s) == multiset(ps);
    if t.points.Some? {
      assert Stored(t) == multiset(t.points.value);
      assert LeafHolds(t.rect, t.capacity, t.points.value);
    }
    assert LeafHolds(s.rect, s.capacity, ps);
  }

  /** Every leaf on the way of `p` has room for one more point: a leaf
      whose point list is unset or below the capacity, or an inner node each
      of whose children containing `p` has room for it. */
  predicate RoomFor(t: Quadtree, p: Point) {
    if !t.divided then t.points.None? || |t.points.value| < AsU32(t.capacity)
    else
      && t.nw.Some? && t.ne.Some? && t.sw.Some? && t.se.Some?
      && (Contains(t.nw.value.rect, p) ==> RoomFor(t.nw.value, p))
      && (Contains(t.ne.value.rect, p) ==> RoomFor(t.ne.value, p))
      && (Contains(t.sw.value.rect, p) ==> RoomFor(t.sw.value, p))
      && (Contains(t.se.value.rect, p) ==> RoomFor(t.se.value, p))
  }

  /** A tree whose leaf for `p` has room takes `p` without subdividing
      anything, so with no fuel at all, and the root keeps its shape. */
  lemma {:induction false} InsertWithRoomNeedsNoFuel(t: Quadtree, p: Point, id: nat)
    requires Good(t) && Contains(t.rect, p) && RoomFor(t, p)
    ensures Insert(t, p, id, 0).Some? && Insert(t, p, id, 0).value.0
    ensures Insert(t, p, id, 0).value.1.divided == t.divided
    decreases Size(t), 5
  {
    if t.divided {
      QuartersPartition(t.rect, p);
      TryChildrenWithRoom(t, InsertOrder, p, id);
    }
  }

  /** Trying the children in the order `qs`, at least one of which contains
      `p`, reaches a child with room and succeeds with no fuel. */
  lemma {:induction false} TryChildrenWithRoom(t: Quadtree, qs: seq<Quadrant>, p: Point, id: nat)
    requires Good(t) && t.divided && |qs| <= 4 && RoomFor(t, p) && Hits(t.rect, qs, p) > 0
    ensures TryChildren(t, qs, p, id, 0).Some? && TryChildren(t, qs, p, id, 0).value.0
    decreases Size(t), |qs|
  {
    var q := qs[0];
    InnerChild(t, q);
    ChildSmaller(t, q);
    var c := Child(t, q).value;
    if Contains(c.rect, p) {
      assert RoomFor(c, p) by {
        match q
        case NW =>
        case NE =>
        case SW =>
        case SE =>
      }
      InsertWithRoomNeedsNoFuel(c, p, id);
    } else {
      assert Hits(t.rect, qs, p) == Indicator(Contains(Quarter(t.rect, q), p)) + Hits(t.rect, qs[1..], p);
      TryChildrenWithRoom(t, qs[1..], p, id);
    }
  }

  /** The children of an inner node tried in the order `qs`; the first that
      takes the point ends the search. The point is taken exactly when one of
      those quarters contains it. */
  function TryChildren(t: Quadtree, qs: seq<Quadrant>, p: Point, id: nat, fuel: nat)
    : (r: Option<(bool, Quadtree)>)
    requires Good(t) && t.divided && |qs| <= 4
    ensures r.Some? ==> (r.value.0 <==> Hits(t.rect, qs, p) > 0)
    ensures r.Some? ==> Good(r.value.1) && r.value.1.divided
    ensures r.Some? ==> r.value.1.rect == t.rect && r.value.1.capacity == t.capacity
    ensures r.Some? ==> Stored(r.value.1) == Stored(t) + Added(r.value.0, (p, id))
    decreases fuel, 0, Size(t), |qs|
  {
    if |qs| == 0 then Some((false, t))
    else
      var q := qs[0];
      InnerChild(t, q);
      ChildSmaller(t, q);
      var a :- Insert(Child(t, q).value, p, id, fuel);
      if a.0 then
        Graft(t, q, a.1, multiset{(p, id)});
        Some((true, WithChild(t, q, a.1)))
      else
        TryChildren(t, qs[1..], p, id, fuel)
  }

  /** `subdivide`: four empty children over the quarters, every point of the
      leaf offered to each child in turn, then the node turns inner. */
  function Subdivide(t: Quadtree, fuel: nat): (r: Option<Quadtree>)
    requires Good(t) && !t.divided && t.points.Some?
    ensures r.Some? ==> Good(r.value) && r.value.divided
    ensures r.Some? ==> r.value.rect == t.rect && r.value.capacity == t.capacity
    ensures r.Some? ==> Stored(r.value) == Stored(t)
    decreases fuel, 3, 0, 0
  {
    var inner := t.(points := None, divided := true,
                    sw := Some(New(t.capacity, Quarter(t.rect, SW))),
                    nw := Some(New(t.capacity, Quarter(t.rect, NW))),
                    se := Some(New(t.capacity, Quarter(t.rect, SE))),
                    ne := Some(New(t.capacity, Quarter(t.rect, NE))));
    assert Stored(inner) == multiset{};
    assert Stored(t) == multiset(t.points.value);
    Redistribute(t.points.value, inner, fuel)
  }

  /** The loop of `subdivide` over the leaf's points. */
  function Redistribute(ps: seq<Entry>, t: Quadtree, fuel: nat): (r: Option<Quadtree>)
    requires Good(t) && t.divided
    requires forall i :: 0 <= i < |ps| ==> Contains(t.rect, ps[i].0)
    ensures r.Some? ==> Good(r.value) && r.value.divided
    ensures r.Some? ==> r.value.rect == t.rect && r.value.capacity == t.capacity
    ensures r.Some? ==> Stored(r.value) == Stored(t) + multiset(ps)
    decreases fuel, 2, |ps|, 0
  {
    if |ps| == 0 then Some(t)
    else
      QuartersPartition(t.rect, ps[0].0);
      var s :- Offer(t, SubdivideOrder, ps[0], fuel);
      assert multiset{}[ps[0] := 1] == multiset{ps[0]};
      assert ps == [ps[0]] + ps[1..];
      Redistribute(ps[1..], s, fuel)
  }

  /** One point of `subdivide`'s loop: the entry offered to every child in
      `qs`, each keeping it when its quarter contains the point. */
  function Offer(t: Quadtree, qs: seq<Quadrant>, e: Entry, fuel: nat): (r: Option<Quadtree>)
    requires Good(t) && t.divided
    ensures r.Some? ==> Good(r.value) && r.value.divided
    ensures r.Some? ==> r.value.rect == t.rect && r.value.capacity == t.capacity
    ensures r.Some? ==> Stored(r.value) == Stored(t) + multiset{}[e := Hits(t.rect, qs, e.0)]
    decreases fuel, 1, |qs|, 0
  {
    if |qs| == 0 then Some(t)
    else
      var q := qs[0];
      InnerChild(t, q);
      var a :- Insert(Child(t, q).value, e.0, e.1, fuel);
      Graft(t, q, a.1, Added(a.0, e));
      var s := WithChild(t, q, a.1);
      var rest :- Offer(s, qs[1..], e, fuel);
      OfferCopies(Stored(t), Stored(s), Stored(rest), t.rect, qs, a.0, e);
      Some(rest)
  }

  // ---------------------------------------------------------------- query

  /** The entries of `ps` inside the circle, in order. */
  function Within(ps: seq<Entry>, c: Circle): (r: seq<Entry>)
    ensures multiset(r) <= multiset(ps)
    ensures forall e :: e in r ==> InRadius(e.0, c)
    ensures forall i :: 0 <= i < |ps| && InRadius(ps[i].0, c) ==> ps[i] in r
  {
    if |ps| == 0 then []
    else
      assert ps == [ps[0]] + ps[1..];
      (if InRadius(ps[0].0, c) then [ps[0]] else []) + Within(ps[1..], c)
  }

  /** `query`: the children's results (ne, nw, se, sw), then the node's own
      points inside the circle if `Touches` lets the node through. The source
      returns the boid indices, the second components of these entries.
      Every entry returned is a stored entry inside the circle, and no stored
      entry is returned more often than it is stored. */
  function Query(t: Quadtree, c: Circle, centred: bool): (r: seq<Entry>)
    requires Shaped(t)
    ensures multiset(r) <= Stored(t)
    ensures forall e :: e in r ==> InRadius(e.0, c)
    decreases t
  {
    var fromKids :=
      if t.divided then
        Query(t.ne.value, c, centred) + Query(t.nw.value, c, centred)
          + Query(t.se.value, c, centred) + Query(t.sw.value, c, centred)
      else [];
    if t.points.None? || !Touches(t.rect, c, centred) then fromKids
    else fromKids + Within(t.points.value, c)
  }

  /** A query of radius 0 returns only entries at the circle's centre. */
  lemma QueryZeroRadius(t: Quadtree, x: real, y: real, centred: bool, e: Entry)
    requires Shaped(t) && e in Query(t, Circle(x, y, 0.0), centred)
    ensures e.0 == Point(x, y)
  {
    ZeroRadiusIsCentre(e.0, x, y);
  }

  lemma ZeroRadiusIsCentre(p: Point, x: real, y: real)
    requires InRadius(p, Circle(x, y, 0.0))
    ensures p == Point(x, y)
  {
    assert Sq(0.0) == 0.0;
    SquareZero(p.x - x, p.y - y);
  }

  lemma SquareZero(a: real, b: real)
    requires Sq(a) + Sq(b) <= 0.0
    ensures a == 0.0 && b == 0.0
  {
    SquareAbs(a);
    SquareAbs(b);
    SquareMonotone(0.0, Abs(a));
    SquareMonotone(0.0, Abs(b));
    if Abs(a) > 0.0 {
      SquareStrict(0.0, Abs(a));
    }
    if Abs(b) > 0.0 {
      SquareStrict(0.0, Abs(b));
    }
  }

  /** The source's query misses points: a leaf over [0, 10) × [0, 10) holding
      a point at (9, 9) is rejected for a circle of radius 1/2 around that
      very point, because the overlap test measures from the corner (0, 0)
      as if it were the centre. */
  lemma QueryMissesNearPoint()
    ensures var t := Insert(New(4, Rect(0.0, 0.0, 10.0, 10.0)), Point(9.0, 9.0), 0, 0);
            && t.Some? && t.value.0
            && Stored(t.value.1) == multiset{(Point(9.0, 9.0), 0)}
            && InRadius(Point(9.0, 9.0), Circle(9.0, 9.0, 0.5))
            && Query(t.value.1, Circle(9.0, 9.0, 0.5), false) == []
  {
    var t := Insert(New(4, Rect(0.0, 0.0, 10.0, 10.0)), Point(9.0, 9.0), 0, 0);
    assert t.value.1.points == Some([(Point(9.0, 9.0), 0)]);
  }

  /** With the overlap test centred, the query is complete: every stored
      entry inside the circle is returned. */
  lemma {:induction false} QueryCentredComplete(t: Quadtree, c: Circle, e: Entry)
    requires Good(t) && e in Stored(t) && InRadius(e.0, c)
    ensures Shaped(t) && e in Query(t, c, true)
    decreases t
  {
    GoodIsShaped(t);
    if t.divided {
      if e in Stored(t.ne.value) {
        QueryCentredComplete(t.ne.value, c, e);
      } else if e in Stored(t.nw.value) {
        QueryCentredComplete(t.nw.value, c, e);
      } else if e in Stored(t.se.value) {
        QueryCentredComplete(t.se.value, c, e);
      } else {
        QueryCentredComplete(t.sw.value, c, e);
      }
    } else {
      var ps := t.points.value;
      var i :| 0 <= i < |ps| && ps[i] == e;
      CentredTouchComplete(t.rect, c, e.0);
    }
  }
}
