/**
 * The camera targets of the globe (globe.js `setDistanceTarget`, `setRotationTarget` and
 * their geographic wrappers), the per-frame damping of the camera towards them, and the
 * test at the top of `render` that decides whether a frame does any work.
 * Constants derived from `Math.PI` are the shortest decimals that denote the same doubles;
 * arithmetic on them is exact here, where the source rounds to doubles.
 */
module View {
  import Picking
  import opened Scheduling

  /** `PI_HALF` (`Math.PI / 2`). */
  const PI_HALF: real := 1.5707963267948966
  /** The initial rotation target, `Math.PI*3/2` and `Math.PI / 6`. */
  const INITIAL_ROTATION_TARGET_X: real := 4.71238898038469
  const INITIAL_ROTATION_TARGET_Y: real := 0.5235987755982988

  const MIN_DISTANCE: real := 350.0
  const MAX_DISTANCE: real := 1000.0
  const INITIAL_DISTANCE: real := 100000.0

  /** Fractions of the remaining gap closed per frame by the rotation and the distance. */
  const ROTATION_DAMPING: real := 0.1
  const DISTANCE_DAMPING: real := 0.3

  // ---------------------------------------------------------------------------
  // Clamps

  /** The distance target is kept between 350 and 1000: the upper bound is applied first. */
  function ClampDistance(d: real): (r: real)
    ensures MIN_DISTANCE <= r <= MAX_DISTANCE
    ensures MIN_DISTANCE <= d <= MAX_DISTANCE ==> r == d
    ensures d < MIN_DISTANCE ==> r == MIN_DISTANCE
    ensures d > MAX_DISTANCE ==> r == MAX_DISTANCE
  {
    var upper := if d > MAX_DISTANCE then MAX_DISTANCE else d;
    if upper < MIN_DISTANCE then MIN_DISTANCE else upper
  }

  /** The latitude of the rotation target is kept within a quarter turn of the equator. */
  function ClampLatitude(y: real): (r: real)
    ensures -PI_HALF <= r <= PI_HALF
    ensures -PI_HALF <= y <= PI_HALF ==> r == y
    ensures y < -PI_HALF ==> r == -PI_HALF
    ensures y > PI_HALF ==> r == PI_HALF
  {
    var upper := if y > PI_HALF then PI_HALF else y;
    if upper < -PI_HALF then -PI_HALF else upper
  }

  lemma ClampsAreIdempotent(d: real, y: real)
    ensures ClampDistance(ClampDistance(d)) == ClampDistance(d)
    ensures ClampLatitude(ClampLatitude(y)) == ClampLatitude(y)
  {
  }

  /** Clamping keeps the order of its inputs: a larger request never gives a smaller target. */
  lemma ClampsAreMonotone(a: real, b: real)
    requires a <= b
    ensures ClampDistance(a) <= ClampDistance(b)
    ensures ClampLatitude(a) <= ClampLatitude(b)
  {
  }

  // ---------------------------------------------------------------------------
  // Geographic coordinates of the rotation target

  /** The longitude the source reports for a rotation target `x` (`getRotation`, and the
      `rotation_x` notification). */
  function GeographicLongitude(x: real): real
  {
    x + PI_HALF
  }

  /** The rotation target `rotateTo` sets for a geographic longitude. */
  function RotationFromLongitude(lon: real): real
  {
    lon - PI_HALF
  }

  lemma GeographicRoundTrip(lon: real, x: real)
    ensures GeographicLongitude(RotationFromLongitude(lon)) == lon
    ensures RotationFromLongitude(GeographicLongitude(x)) == x
  {
  }

  // ---------------------------------------------------------------------------
  // The camera and the render gate

  /** What `render` reads before deciding whether to draw. */
  datatype Camera = Camera(
    rotationX: real, rotationY: real,
    rotationTargetX: real, rotationTargetY: real,
    distance: real, distanceTarget: real)

  predicate Converged(c: Camera)
  {
    && Picking.Abs(c.rotationX - c.rotationTargetX) < Picking.EPS
    && Picking.Abs(c.rotationY - c.rotationTargetY) < Picking.EPS
    && Picking.Abs(c.distanceTarget - c.distance) < Picking.EPS
  }

  /** A frame is skipped exactly when no redraw was requested, the camera has converged and
      the animation counter is zero. */
  predicate RenderSkips(redraw: bool, c: Camera, numAnimationFunctions: int)
  {
    !redraw && Converged(c) && numAnimationFunctions == 0
  }

  /** One frame's step of the camera towards its targets. */
  function Damp(x: real, target: real, k: real): (r: real)
    requires 0.0 <= k <= 1.0
    ensures Picking.Abs(target - r) == (1.0 - k) * Picking.Abs(target - x)
    ensures x <= target ==> x <= r <= target
    ensures target <= x ==> target <= r <= x
  {
    x + (target - x) * k
  }

  function DampCamera(c: Camera): (r: Camera)
    ensures r.rotationTargetX == c.rotationTargetX && r.rotationTargetY == c.rotationTargetY
    ensures r.distanceTarget == c.distanceTarget
  {
    c.(rotationX := Damp(c.rotationX, c.rotationTargetX, ROTATION_DAMPING),
       rotationY := Damp(c.rotationY, c.rotationTargetY, ROTATION_DAMPING),
       distance := Damp(c.distance, c.distanceTarget, DISTANCE_DAMPING))
  }

  /** The camera gets strictly closer to every target it has not reached, and never overshoots. */
  lemma DampingApproachesTargets(c: Camera)
    ensures var r := DampCamera(c);
      && Picking.Abs(r.rotationTargetX - r.rotationX) <= Picking.Abs(c.rotationTargetX - c.rotationX)
      && Picking.Abs(r.rotationTargetY - r.rotationY) <= Picking.Abs(c.rotationTargetY - c.rotationY)
      && Picking.Abs(r.distanceTarget - r.distance) <= Picking.Abs(c.distanceTarget - c.distance)
    ensures var r := DampCamera(c);
      && (c.rotationX != c.rotationTargetX ==>
            Picking.Abs(r.rotationTargetX - r.rotationX) < Picking.Abs(c.rotationTargetX - c.rotationX))
      && (c.rotationY != c.rotationTargetY ==>
            Picking.Abs(r.rotationTargetY - r.rotationY) < Picking.Abs(c.rotationTargetY - c.rotationY))
      && (c.distance != c.distanceTarget ==>
            Picking.Abs(r.distanceTarget - r.distance) < Picking.Abs(c.distanceTarget - c.distance))
    ensures var r := DampCamera(c);
      && Between(r.rotationX, c.rotationX, c.rotationTargetX)
      && Between(r.rotationY, c.rotationY, c.rotationTargetY)
      && Between(r.distance, c.distance, c.distanceTarget)
  {
  }

  /** `y` lies on the closed segment from `x` to `target`: no overshoot. */
  predicate Between(y: real, x: real, target: real)
  {
    if x <= target then x <= y <= target else target <= y <= x
  }

  /** A converged camera stays converged under damping. */
  lemma DampingKeepsConvergence(c: Camera)
    requires Converged(c)
    ensures Converged(DampCamera(c))
  {
    DampingApproachesTargets(c);
  }

  /** With a counter that is never below the table size (as written it only runs ahead, and the
      corrected counter equals it), a skipped frame has no pending animations, and picking is
      open as far as the zoom is concerned. */
  lemma SkippedFrameIsIdle(redraw: bool, c: Camera, h: Registry, dragging: bool, touchStarted: bool)
    requires h.count >= |h.table| && RenderSkips(redraw, c, h.count)
    ensures h.table == map[]
    ensures Picking.PickingEnabled(Picking.PickGate(c.distance, c.distanceTarget, dragging, touchStarted))
        <==> !dragging && !touchStarted
  {
  }

  /** As written, a name started twice and then finished leaves the table as it was but the
      counter one too high; whatever starts and finishes follow, the counter never reaches 0
      again, so the globe redraws every frame from then on, even with nothing left to animate. */
  lemma AsWrittenCounterNeverLetsRenderSkip(g: Registry, name: string, a: Animation, b: Animation,
                                            redraw: bool, c: Camera)
    requires g.count == |g.table| && name !in g.table
    ensures var h := Finish(StartAsWritten(StartAsWritten(g, name, a), name, b), name);
      h.table == g.table && !RenderSkips(redraw, c, h.count)
    ensures var h := Finish(StartAsWritten(StartAsWritten(g, name, a), name, b), name);
      forall ops: seq<TableOp> :: !RenderSkips(redraw, c, ApplyAsWritten(h, ops).count)
  {
    StartAsWrittenOverwriteOvercounts(g, name, a, b);
    var h := Finish(StartAsWritten(StartAsWritten(g, name, a), name, b), name);
    assert h.table == g.table;
    forall ops: seq<TableOp>
      ensures !RenderSkips(redraw, c, ApplyAsWritten(h, ops).count)
    {
      AsWrittenSurplusNeverShrinks(h, ops);
    }
  }

  /** With the corrected counter, an empty table lets an idle, converged frame be skipped. */
  lemma CorrectedCounterLetsIdleFrameSkip(g: Registry, name: string, a: Animation, b: Animation, c: Camera)
    requires g.count == |g.table| && g.table == map[] && Converged(c)
    ensures var h := Finish(Start(Start(g, name, a), name, b), name);
      h.table == map[] && RenderSkips(false, c, h.count)
  {
    StartOverwriteThenFinishRestoresCount(g, name, a, b);
    var h := Finish(Start(Start(g, name, a), name, b), name);
    assert h.table.Keys == {};
  }
}
