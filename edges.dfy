/**
 * The edge and respawn policies that the scenes apply to one coordinate at a
 * time: toroidal wrap, reflective bounce, the Hyperspace depth respawn and the
 * Kaleidoscope symmetry mapping. Exact reals stand for the JavaScript
 * doubles: the additions of a drift or a depth step, the division and the
 * multiplication by 12 before the symmetry floor are exact here, so rounding
 * that could move a value across a comparison or a floor boundary is not
 * modelled.
 */
module Edges {
  import opened Common

  /** The two sequential tests `if (v < 0) v = extent; if (v > extent) v = 0;`. */
  function Wrap(v: real, extent: real): (r: real)
    ensures extent >= 0.0 ==> 0.0 <= r <= extent
    ensures 0.0 <= v <= extent ==> r == v
    ensures v < 0.0 ==> r == extent
    ensures extent >= 0.0 && v > extent ==> r == 0.0
  {
    var low := if v < 0.0 then extent else v;
    if low > extent then 0.0 else low
  }

  /** Wrapping a point one axis at a time, as Gravity, Boids and Quantum Field do. */
  function WrapPoint(p: Point, width: real, height: real): (r: Point)
    ensures width >= 0.0 && height >= 0.0 ==> InBox(r, width, height)
    ensures InBox(p, width, height) ==> r == p
  {
    Point(Wrap(p.x, width), Wrap(p.y, height))
  }

  predicate InBox(p: Point, width: real, height: real) {
    0.0 <= p.x <= width && 0.0 <= p.y <= height
  }

  /**
   * An algebraic fact about the model rather than a behaviour of the scenes:
   * a wrapped coordinate is already in range, so wrapping again changes nothing.
   */
  lemma WrapIdempotent(v: real, extent: real)
    requires extent >= 0.0
    ensures Wrap(Wrap(v, extent), extent) == Wrap(v, extent)
  {
  }

  /** A position and velocity along one axis. */
  datatype Axis = Axis(pos: real, vel: real)

  predicate Outside(pos: real, extent: real) {
    pos < 0.0 || pos > extent
  }

  /** `if (p.x < 0 || p.x > width) p.vx *= -1;` */
  function Bounce(a: Axis, extent: real): (r: Axis)
    ensures r.pos == a.pos
    ensures Outside(a.pos, extent) ==> r.vel == -a.vel
    ensures !Outside(a.pos, extent) ==> r.vel == a.vel
  {
    if Outside(a.pos, extent) then a.(vel := -a.vel) else a
  }

  /**
   * An algebraic fact about the model rather than a behaviour of the scenes
   * (every bounce there follows a drift): bouncing twice at the same
   * position restores the velocity.
   */
  lemma BounceInvolutive(a: Axis, extent: real)
    ensures Bounce(Bounce(a, extent), extent) == a
  {
  }

  /** One tick of drift then bounce (`p.x += p.vx;` followed by the bounce test). */
  function Drift(a: Axis, extent: real): (r: Axis)
    ensures r.pos == a.pos + a.vel
    ensures r.vel == a.vel || r.vel == -a.vel
    ensures Outside(r.pos, extent) ==> r.vel == -a.vel
    ensures !Outside(r.pos, extent) ==> r.vel == a.vel
  {
    Bounce(Axis(a.pos + a.vel, a.vel), extent)
  }

  /**
   * The band a bouncing coordinate stays in: it is never more than one step
   * outside [0, extent], and whenever it is outside it is heading back in.
   */
  predicate NearBounds(a: Axis, extent: real) {
    && (a.pos < 0.0 ==> 0.0 < a.vel && -a.vel <= a.pos)
    && (a.pos > extent ==> a.vel < 0.0 && a.pos <= extent - a.vel)
  }

  lemma DriftKeepsNearBounds(a: Axis, extent: real)
    requires extent >= 0.0
    requires NearBounds(a, extent)
    ensures NearBounds(Drift(a, extent), extent)
  {
  }

  /** A star of the Hyperspace scene: lateral offset from the centre and depth. */
  datatype Star = Star(x: real, y: real, z: real)

  /**
   * `s.z -= speed; if (s.z <= 0) { s.z = width; s.x = ...; s.y = ...; }`
   * The random respawn offsets are the parameters `rx` and `ry`.
   */
  function DepthStep(s: Star, speed: real, width: real, rx: real, ry: real): (r: Star)
    ensures s.z - speed <= 0.0 ==> r == Star(rx, ry, width)
    ensures s.z - speed > 0.0 ==> r == s.(z := s.z - speed)
    ensures speed >= 0.0 && width > 0.0 && s.z <= width ==> 0.0 < r.z <= width
  {
    var z := s.z - speed;
    if z <= 0.0 then Star(rx, ry, width) else s.(z := z)
  }

  /**
   * A star never reaches the viewer: whatever its depth before (even the depth
   * 0 that the initial `Math.random() * width` can produce), one tick leaves it
   * in (0, width], and a star that is not respawned moves strictly closer.
   */
  lemma DepthStaysInRange(s: Star, speed: real, width: real, rx: real, ry: real)
    requires speed > 0.0 && width > 0.0 && s.z <= width
    ensures var r := DepthStep(s, speed, width, rx, ry);
      0.0 < r.z <= width && (r.z < s.z || (r.x == rx && r.y == ry && r.z == width))
  {
  }

  const MaxSymmetry: int := 12
  const MinSymmetry: int := 2

  /** `Math.max(2, Math.floor((mouse.x / width) * 12))` */
  function Symmetry(pointerX: real, width: real): (r: int)
    requires width > 0.0
    ensures r >= MinSymmetry
    ensures r > MinSymmetry ==> r as real <= pointerX / width * 12.0 < r as real + 1.0
    ensures r == MinSymmetry ==> pointerX / width * 12.0 < 3.0
  {
    var s := (pointerX / width * MaxSymmetry as real).Floor;
    if s > MinSymmetry then s else MinSymmetry
  }

  /** The symmetry count keeps its last value while the pointer is absent. */
  function NextSymmetry(current: int, pointer: Option<Point>, width: real): (r: int)
    requires width > 0.0
    ensures pointer.None? ==> r == current
    ensures pointer.Some? ==> r == Symmetry(pointer.value.x, width)
  {
    if pointer.Some? then Symmetry(pointer.value.x, width) else current
  }

  lemma SymmetryMonotonic(x1: real, x2: real, width: real)
    requires width > 0.0 && x1 <= x2
    ensures Symmetry(x1, width) <= Symmetry(x2, width)
  {
    var a, b := x1 / width * 12.0, x2 / width * 12.0;
    assert x1 / width <= x2 / width by {
      assert x2 / width - x1 / width == (x2 - x1) / width;
    }
    assert a <= b;
  }

  lemma SymmetryAtEdges(width: real)
    requires width > 0.0
    ensures Symmetry(0.0, width) == MinSymmetry
    ensures Symmetry(width, width) == MaxSymmetry
  {
    assert width / width == 1.0;
  }

  /** On the surface the count never exceeds the maximum. */
  lemma SymmetryBounded(x: real, width: real)
    requires width > 0.0 && 0.0 <= x <= width
    ensures MinSymmetry <= Symmetry(x, width) <= MaxSymmetry
  {
    SymmetryMonotonic(x, width, width);
    SymmetryAtEdges(width);
  }
}
