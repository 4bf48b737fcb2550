/**
 * The real-valued parts of an arrow's parametric surface (globe.js `arrowGeometry`) and the
 * loop that refills a parametric geometry's vertices (globe.js `recomputeVertices`). The
 * spherical interpolation and tangent vectors are not part of this model; a vertex is
 * described by its position along the arc, the scale of the arc's centre-line point and its
 * signed offset along the unit tangent perpendicular to the arc's plane.
 */
module ArrowGeometry {
  import opened ArrowRecords
  import Picking

  const GLOBE_RADIUS: real := 200.0
  /** Height of the arc above the globe at its midpoint. */
  const ARC_HEIGHT: real := 30.0
  /** The picking mesh is never thinner than the distance target divided by this. */
  const MIN_SCORE_DIVISOR: real := 500.0
  /** Slices and stacks of every arrow geometry. */
  const ARROW_SLICES: nat := 100
  const ARROW_STACKS: nat := 5

  // ---------------------------------------------------------------------------
  // The minimum score of the picking mesh

  /** The score that gives the picking mesh its width: a positive score below
      `distanceTarget / 500` is raised to it, so thin arrows stay pickable when zoomed out. */
  function MousemapScore(score: real, distanceTarget: real): real
  {
    var minScore := distanceTarget / MIN_SCORE_DIVISOR;
    if 0.0 < score && score < minScore then minScore else score
  }

  lemma MousemapScoreBounds(score: real, distanceTarget: real)
    ensures MousemapScore(score, distanceTarget) >= score
    ensures 0.0 < score ==> MousemapScore(score, distanceTarget) >= distanceTarget / MIN_SCORE_DIVISOR
    ensures score <= 0.0 || score >= distanceTarget / MIN_SCORE_DIVISOR ==>
              MousemapScore(score, distanceTarget) == score
    ensures MousemapScore(score, distanceTarget) == score
         || MousemapScore(score, distanceTarget) == distanceTarget / MIN_SCORE_DIVISOR
  {
  }

  /** A larger score never gives a thinner picking mesh, and clamping twice changes nothing. */
  lemma MousemapScoreMonotone(a: real, b: real, distanceTarget: real)
    requires a <= b
    ensures MousemapScore(a, distanceTarget) <= MousemapScore(b, distanceTarget)
    ensures MousemapScore(MousemapScore(a, distanceTarget), distanceTarget) == MousemapScore(a, distanceTarget)
  {
  }

  // ---------------------------------------------------------------------------
  // The surface

  lemma ProductOfFractions(a: real, b: real)
    requires 0.0 <= a <= 1.0 && 0.0 <= b <= 1.0
    ensures 0.0 <= a * b <= a
  {
  }

  lemma ProductNonnegative(a: real, b: real)
    requires 0.0 <= a && 0.0 <= b
    ensures 0.0 <= a * b
  {
  }

  lemma ScaledBy(w: real, c: real)
    requires 0.0 <= w && -1.0 <= c <= 1.0
    ensures -w <= w * c <= w
  {
  }

  /** The `4u(1-u)` envelope that lifts the arc and widens the arrow towards its middle. */
  function Envelope(u: real): real
  {
    4.0 * u * (1.0 - u)
  }

  lemma EnvelopeBounds(u: real)
    requires 0.0 <= u <= 1.0
    ensures 0.0 <= Envelope(u) <= 1.0
    ensures Envelope(0.0) == 0.0 && Envelope(1.0) == 0.0 && Envelope(0.5) == 1.0
  {
    assert 1.0 - Envelope(u) == (2.0 * u - 1.0) * (2.0 * u - 1.0);
    ProductOfFractions(u, 1.0 - u);
  }

  /** One vertex of an arrow's surface: the fraction `u` of the arc it sits at, the factor
      `radius` by which the unit point of the arc's centre line is scaled, and the signed
      offset `lateral` along the unit tangent perpendicular to the arc's plane. */
  datatype SurfacePoint = SurfacePoint(u: real, radius: real, lateral: real)

  /** The vertex at parameters (`rawU`, `v`) for an arrow drawn up to `position` with width
      `score`: the arc is cut at `position`, lifted by the envelope, and widened across `v`. */
  function SurfaceAt(rawU: real, v: real, position: real, score: real, arrowScale: real): SurfacePoint
  {
    var u := rawU * position;
    SurfacePoint(u, GLOBE_RADIUS + ARC_HEIGHT * Envelope(u),
                 score * arrowScale * (v - 0.5) * 2.0 * Envelope(u))
  }

  /** The surface of a live arrow: the visible mesh follows the animation position and the
      displayed score, the picking mesh is always fully drawn with the clamped score. */
  function ArrowSurfaceAt(a: Arrow, isMousemap: bool, distanceTarget: real, arrowScale: real,
                          rawU: real, v: real): SurfacePoint
  {
    if isMousemap then SurfaceAt(rawU, v, 1.0, MousemapScore(a.score, distanceTarget), arrowScale)
    else SurfaceAt(rawU, v, a.animationPosition, a.animationScore, arrowScale)
  }

  /** The arc's centre line stays between the globe's surface and 30 units above it. */
  lemma ArcStaysAboveGlobe(rawU: real, v: real, position: real, score: real, arrowScale: real)
    requires 0.0 <= rawU <= 1.0 && 0.0 <= position <= 1.0
    ensures var p := SurfaceAt(rawU, v, position, score, arrowScale);
      0.0 <= p.u <= 1.0 && GLOBE_RADIUS <= p.radius <= GLOBE_RADIUS + ARC_HEIGHT
  {
    var u := rawU * position;
    ProductOfFractions(position, rawU);
    EnvelopeBounds(u);
  }

  /** The arrow is no wider than its score across the whole surface, and has no width where
      the arc starts or ends. */
  lemma ArrowWidthBounded(rawU: real, v: real, position: real, score: real, arrowScale: real)
    requires 0.0 <= rawU <= 1.0 && 0.0 <= position <= 1.0 && 0.0 <= v <= 1.0
    requires 0.0 <= score && 0.0 <= arrowScale
    ensures var p := SurfaceAt(rawU, v, position, score, arrowScale);
      -score * arrowScale <= p.lateral <= score * arrowScale
    ensures var p := SurfaceAt(rawU, v, position, score, arrowScale);
      p.u == 0.0 || p.u == 1.0 ==> p.lateral == 0.0
  {
    var u := rawU * position;
    ProductOfFractions(position, rawU);
    EnvelopeBounds(u);
    var w := score * arrowScale;
    var side := (v - 0.5) * 2.0;
    var e := Envelope(u);
    var c := e * side;
    ScaledBy(e, side);
    assert -1.0 <= c <= 1.0;
    assert 0.0 <= w by {
      ProductNonnegative(score, arrowScale);
    }
    assert SurfaceAt(rawU, v, position, score, arrowScale).lateral == w * (side * e);
    ScaledBy(w, c);
  }

  /** The square of a vertex's distance from the globe's centre. The tangent is a unit vector
      perpendicular to the plane of the arc, hence to the centre-line point, so the centre-line
      scale and the lateral offset add in squares. */
  function DistanceSquared(p: SurfacePoint): real
  {
    p.radius * p.radius + p.lateral * p.lateral
  }

  lemma SquareBounded(x: real, w: real)
    requires -w <= x <= w
    ensures 0.0 <= x * x <= w * w
  {
    assert w * w - x * x == (w - x) * (w + x);
    ProductNonnegative(w - x, w + x);
    if x < 0.0 {
      ProductNonnegative(-x, -x);
    } else {
      ProductNonnegative(x, x);
    }
  }

  /** Every vertex lies on or outside the globe's surface, and no farther from the centre
      than the top of the arc widened by the arrow's full width. */
  lemma VertexDistanceBounded(rawU: real, v: real, position: real, score: real, arrowScale: real)
    requires 0.0 <= rawU <= 1.0 && 0.0 <= position <= 1.0 && 0.0 <= v <= 1.0
    requires 0.0 <= score && 0.0 <= arrowScale
    ensures var p := SurfaceAt(rawU, v, position, score, arrowScale);
      && GLOBE_RADIUS * GLOBE_RADIUS <= DistanceSquared(p)
      && DistanceSquared(p) <= (GLOBE_RADIUS + ARC_HEIGHT) * (GLOBE_RADIUS + ARC_HEIGHT)
                               + (score * arrowScale) * (score * arrowScale)
  {
    var p := SurfaceAt(rawU, v, position, score, arrowScale);
    ArcStaysAboveGlobe(rawU, v, position, score, arrowScale);
    ArrowWidthBounded(rawU, v, position, score, arrowScale);
    SquareBounded(p.lateral, score * arrowScale);
    SquareBounded(p.radius, GLOBE_RADIUS + ARC_HEIGHT);
    assert p.radius * p.radius - GLOBE_RADIUS * GLOBE_RADIUS
        == (p.radius - GLOBE_RADIUS) * (p.radius + GLOBE_RADIUS);
    ProductNonnegative(p.radius - GLOBE_RADIUS, p.radius + GLOBE_RADIUS);
  }

  /** An arrow whose enter animation has not started is drawn as a single point on the globe at
      its source: every vertex sits at the start of the arc with no lift and no width. */
  lemma UndrawnArrowCollapses(a: Arrow, distanceTarget: real, arrowScale: real, rawU: real, v: real)
    requires a.animationPosition == 0.0
    ensures ArrowSurfaceAt(a, false, distanceTarget, arrowScale, rawU, v) == SurfacePoint(0.0, GLOBE_RADIUS, 0.0)
  {
  }

  // ---------------------------------------------------------------------------
  // Refilling the vertices

  /** The parameters at which the `i`-th vertex of a `slices` by `stacks` grid is evaluated. */
  function GridU(i: nat, slices: nat): real
    requires slices > 0
  {
    (i % (slices + 1)) as real / slices as real
  }

  function GridV(i: nat, slices: nat, stacks: nat): real
    requires stacks > 0
  {
    (i / (slices + 1)) as real / stacks as real
  }

  /** Row-major numbering of grid points is a bijection onto the vertex indices. */
  lemma GridIndex(stack: nat, slice: nat, width: nat)
    requires slice < width
    ensures (stack * width + slice) / width == stack
    ensures (stack * width + slice) % width == slice
  {
    Picking.DivModUnique(stack * width + slice, width, stack, slice);
  }

  /** The parameters of the vertex at grid point (`stack`, `slice`). */
  lemma GridParameters(stack: nat, slice: nat, slices: nat, stacks: nat)
    requires slices > 0 && stacks > 0 && slice <= slices
    ensures GridU(stack * (slices + 1) + slice, slices) == slice as real / slices as real
    ensures GridV(stack * (slices + 1) + slice, slices, stacks) == stack as real / stacks as real
  {
    GridIndex(stack, slice, slices + 1);
  }

  lemma GridBound(stack: nat, slice: nat, width: nat, height: nat)
    requires stack < height && slice < width
    ensures stack * width + slice < height * width
  {
    assert stack * width <= (height - 1) * width;
  }

  /** The first `n` vertices hold their grid point's value. */
  ghost predicate Filled<V>(vertices: array<V>, n: nat, slices: nat, stacks: nat, func: (real, real) -> V)
    requires slices > 0 && stacks > 0 && n <= vertices.Length
    reads vertices
  {
    forall i :: 0 <= i < n ==> vertices[i] == func(GridU(i, slices), GridV(i, slices, stacks))
  }

  /** Fills `vertices` in row-major order: stack by stack, slice by slice within a stack, each
      vertex with `func(slice/slices, stack/stacks)`. Every vertex is written. */
  method RecomputeVertices<V>(vertices: array<V>, slices: nat, stacks: nat, func: (real, real) -> V)
    requires slices > 0 && stacks > 0
    requires vertices.Length == (stacks + 1) * (slices + 1)
    modifies vertices
    ensures forall i :: 0 <= i < vertices.Length ==>
              vertices[i] == func(GridU(i, slices), GridV(i, slices, stacks))
  {
    var vertexIndex := 0;
    var stack := 0;
    while stack <= stacks
      invariant 0 <= stack <= stacks + 1
      invariant vertexIndex == stack * (slices + 1) <= vertices.Length
      invariant Filled(vertices, vertexIndex, slices, stacks, func)
    {
      vertexIndex := FillStack(vertices, slices, stacks, func, stack, vertexIndex);
      stack := stack + 1;
    }
  }

  /** The inner loop of `recomputeVertices`: the `slices + 1` vertices of one stack. */
  method FillStack<V>(vertices: array<V>, slices: nat, stacks: nat, func: (real, real) -> V,
                      stack: nat, start: nat) returns (vertexIndex: nat)
    requires slices > 0 && stacks > 0 && stack <= stacks
    requires vertices.Length == (stacks + 1) * (slices + 1)
    requires start == stack * (slices + 1)
    requires Filled(vertices, start, slices, stacks, func)
    modifies vertices
    ensures vertexIndex == (stack + 1) * (slices + 1) <= vertices.Length
    ensures Filled(vertices, vertexIndex, slices, stacks, func)
  {
    vertexIndex := start;
    var slice := 0;
    while slice <= slices
      invariant 0 <= slice <= slices + 1
      invariant vertexIndex == start + slice
      invariant vertexIndex <= vertices.Length
      invariant Filled(vertices, vertexIndex, slices, stacks, func)
    {
      GridParameters(stack, slice, slices, stacks);
      GridBound(stack, slice, slices + 1, stacks + 1);
      vertices[vertexIndex] := func(slice as real / slices as real, stack as real / stacks as real);
      vertexIndex := vertexIndex + 1;
      slice := slice + 1;
    }
    GridBound(stack, slices, slices + 1, stacks + 1);
  }
}
