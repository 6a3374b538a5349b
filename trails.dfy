/**
 * The bounded trail buffers: the history of a Flow Field particle (capped at
 * its own `maxLength`, cleared when the particle wraps) and the polyline of a
 * Fractal Roots root (capped at 100 points), together with the root life
 * cycle that decides when a root stops growing.
 */
module Trails {
  import opened Common
  import Edges

  /**
   * `history.push(p); if (history.length > cap) history.shift();`
   * The result ends with `p` (unless the cap is below one), is a suffix of
   * `h + [p]`, and never exceeds a cap the old history respected.
   */
  function PushCapped<T>(h: seq<T>, p: T, cap: real): (r: seq<T>)
    ensures |r| == if (|h| + 1) as real > cap then |h| else |h| + 1
    ensures r == (h + [p])[|h| + 1 - |r|..]
    ensures |h| as real <= cap ==> |r| as real <= cap
    ensures cap >= 1.0 ==> r != [] && r[|r| - 1] == p
  {
    var pushed := h + [p];
    if |pushed| as real > cap then pushed[1..] else pushed
  }

  /** Pushing onto a full trail drops exactly the oldest point. */
  lemma {:induction false} PushCappedDropsOldest<T>(h: seq<T>, p: T, cap: real)
    requires h != [] && |h| as real <= cap < (|h| + 1) as real
    ensures PushCapped(h, p, cap) == h[1..] + [p]
    ensures |PushCapped(h, p, cap)| == |h|
  {
    assert (h + [p])[1..] == h[1..] + [p];
  }

  /** A particle of the Flow Field scene, reduced to its position and trail. */
  class FlowParticle {
    var x: real
    var y: real
    var history: seq<Point>
    /** `Math.random() * 20 + 10`, drawn once when the particle is created. */
    const maxLength: real

    ghost predicate Valid()
      reads this
    {
      |history| as real <= maxLength
    }

    /** `createParticle`: a particle with an empty trail. */
    constructor (x0: real, y0: real, cap: real)
      requires cap >= 0.0
      ensures Valid() && x == x0 && y == y0 && history == [] && maxLength == cap
    {
      x, y, history, maxLength := x0, y0, [], cap;
    }

    /** Record the current position in the trail, dropping the oldest point once over the cap. */
    method Trail()
      requires Valid()
      modifies this
      ensures Valid() && x == old(x) && y == old(y)
      ensures history == PushCapped(old(history), Point(x, y), maxLength)
    {
      history := history + [Point(x, y)];
      if |history| as real > maxLength {
        history := history[1..];
      }
    }

    /** Wrap the position at the viewport edges; any wrap clears the trail. */
    method WrapEdges(width: real, height: real)
      requires Valid()
      modifies this
      ensures Valid()
      ensures Point(x, y) == Edges.WrapPoint(old(Point(x, y)), width, height)
      ensures history == if Edges.InBox(old(Point(x, y)), width, height) then old(history) else []
    {
      if x < 0.0 { x := width; history := []; }
      if x > width { x := 0.0; history := []; }
      if y < 0.0 { y := height; history := []; }
      if y > height { y := 0.0; history := []; }
    }

    /**
     * One tick after the flow-field force has produced the velocity
     * (`vx`, `vy`): move, record the trail, wrap.
     */
    method Advance(vx: real, vy: real, width: real, height: real)
      requires Valid()
      modifies this
      ensures Valid()
      ensures var moved := Point(old(x) + vx, old(y) + vy);
        && Point(x, y) == Edges.WrapPoint(moved, width, height)
        && history == if Edges.InBox(moved, width, height)
                      then PushCapped(old(history), moved, maxLength)
                      else []
    {
      x := x + vx;
      y := y + vy;
      Trail();
      WrapEdges(width, height);
    }
  }

  /** `if (r.history.length > 100) r.history.shift();` */
  const MaxRootLength: real := 100.0

  /** A root of the Fractal Roots scene: its polyline, oldest point first, and whether it still grows. */
  datatype Root = Root(history: seq<Point>, active: bool)

  /** Every root keeps between 1 and 100 points. */
  predicate RootOk(r: Root) {
    1 <= |r.history| && |r.history| as real <= MaxRootLength
  }

  /**
   * `spawnRoot` with its random draws as parameters: `side` is
   * `Math.floor(Math.random() * 4)` and `t` the position along that side.
   */
  function SpawnPoint(side: int, t: real, width: real, height: real): (p: Point)
    ensures p.y == 0.0 || p.x == width || p.y == height || p.x == 0.0
    ensures 0.0 <= t <= 1.0 && width >= 0.0 && height >= 0.0 ==> Edges.InBox(p, width, height)
  {
    ScaleWithin(t, width);
    ScaleWithin(t, height);
    if side == 0 then Point(t * width, 0.0)
    else if side == 1 then Point(width, t * height)
    else if side == 2 then Point(t * width, height)
    else Point(0.0, t * height)
  }

  lemma ScaleWithin(t: real, extent: real)
    ensures 0.0 <= t <= 1.0 && extent >= 0.0 ==> 0.0 <= t * extent <= extent
  {
    if 0.0 <= t <= 1.0 && extent >= 0.0 {
      assert extent - t * extent == (1.0 - t) * extent;
    }
  }

  /**
   * `mouse.x || width / 2`: the pointer coordinate, or the centre when the
   * pointer is absent or that coordinate is 0 (which JavaScript treats as false).
   */
  function Target(pointer: Option<Point>, width: real, height: real): (t: Point)
    ensures pointer.None? ==> t == Point(width / 2.0, height / 2.0)
    ensures pointer.Some? && pointer.value.x != 0.0 ==> t.x == pointer.value.x
    ensures pointer.Some? && pointer.value.y != 0.0 ==> t.y == pointer.value.y
    ensures t.x == width / 2.0 || (pointer.Some? && t.x == pointer.value.x)
    ensures t.y == height / 2.0 || (pointer.Some? && t.y == pointer.value.y)
    ensures pointer.Some? && pointer.value.x == 0.0 ==> t.x == width / 2.0
    ensures pointer.Some? && pointer.value.y == 0.0 ==> t.y == height / 2.0
  {
    var px := if pointer.Some? && pointer.value.x != 0.0 then pointer.value.x else width / 2.0;
    var py := if pointer.Some? && pointer.value.y != 0.0 then pointer.value.y else height / 2.0;
    Point(px, py)
  }

  /**
   * Each axis falls back on its own: a pointer on the left edge (x == 0) of a
   * surface wider than 0 pulls the roots toward the vertical centre line, not
   * toward the pointer.
   */
  lemma TargetAtLeftEdge(py: real, width: real, height: real)
    requires width > 0.0 && py != 0.0
    ensures Target(Some(Point(0.0, py)), width, height) == Point(width / 2.0, py)
    ensures Target(Some(Point(0.0, py)), width, height) != Point(0.0, py)
  {
  }

  /** `Math.sqrt(dx * dx + dy * dy) < 10`, compared without the square root. */
  predicate Reached(head: Point, target: Point) {
    var dx, dy := target.x - head.x, target.y - head.y;
    dx * dx + dy * dy < 100.0
  }

  /**
   * One pass of the update loop over a root: an inactive root is skipped, a
   * root whose head is within 10 px of the target stops growing, any other
   * root grows by `next` (the step toward the target with its random wiggle).
   */
  function GrowRoot(r: Root, target: Point, next: Point): (g: Root)
    requires r.history != []
    ensures RootOk(r) ==> RootOk(g)
    ensures g.active ==> r.active
    ensures !r.active ==> g == r
    ensures r.active && Reached(r.history[|r.history| - 1], target) ==> g == r.(active := false)
    ensures r.active && !Reached(r.history[|r.history| - 1], target) ==>
      g.active && g.history == PushCapped(r.history, next, MaxRootLength)
  {
    if !r.active then r
    else if Reached(r.history[|r.history| - 1], target) then r.(active := false)
    else r.(history := PushCapped(r.history, next, MaxRootLength))
  }

  /** `roots.filter(r => r.active || r.history.length > 0)` */
  function KeepLive(rs: seq<Root>): (kept: seq<Root>)
    ensures |kept| <= |rs|
    ensures forall k | 0 <= k < |kept| :: kept[k].active || |kept[k].history| > 0
    ensures forall x | x in kept :: x in rs
    ensures forall k | 0 <= k < |rs| :: (rs[k].active || |rs[k].history| > 0) ==> rs[k] in kept
    ensures |rs| == 1 ==> kept == if rs[0].active || |rs[0].history| > 0 then rs else []
  {
    if rs == [] then []
    else (if rs[0].active || |rs[0].history| > 0 then [rs[0]] else []) + KeepLive(rs[1..])
  }

  /**
   * The filter works element by element and keeps the order: filtering a
   * concatenation concatenates the filtered parts.
   */
  lemma {:induction false} KeepLiveAppend(a: seq<Root>, b: seq<Root>)
    ensures KeepLive(a + b) == KeepLive(a) + KeepLive(b)
    decreases |a|
  {
    if a != [] {
      assert (a + b)[1..] == a[1..] + b;
      KeepLiveAppend(a[1..], b);
    } else {
      assert a + b == b;
    }
  }

  /** Roots never lose their last point, so the clean-up filter removes none of them. */
  lemma {:induction false} KeepLiveKeepsAll(rs: seq<Root>)
    requires forall k | 0 <= k < |rs| :: RootOk(rs[k])
    ensures KeepLive(rs) == rs
  {
    if rs != [] {
      KeepLiveKeepsAll(rs[1..]);
      assert [rs[0]] + rs[1..] == rs;
    }
  }

  /** The number of active roots in `rs` that reach the target this tick. */
  function Arrivals(rs: seq<Root>, target: Point): (n: nat)
    requires forall k | 0 <= k < |rs| :: rs[k].history != []
    ensures n <= |rs|
    ensures n == 0 <==> forall k | 0 <= k < |rs| ::
      !(rs[k].active && Reached(rs[k].history[|rs[k].history| - 1], target))
  {
    if rs == [] then 0
    else
      var last := rs[|rs| - 1];
      Arrivals(rs[..|rs| - 1], target)
      + (if last.active && Reached(last.history[|last.history| - 1], target) then 1 else 0)
  }

  /** The Fractal Roots scene: its list of roots. */
  class RootsScene {
    var roots: seq<Root>

    ghost predicate Valid()
      reads this
    {
      forall k | 0 <= k < |roots| :: RootOk(roots[k])
    }

    constructor ()
      ensures Valid() && roots == []
    {
      roots := [];
    }

    /** `spawnRoot`: append a growing root of one point on the chosen edge. */
    method SpawnRoot(side: int, t: real, width: real, height: real)
      requires Valid()
      modifies this
      ensures Valid()
      ensures roots == old(roots) + [Root([SpawnPoint(side, t, width, height)], true)]
    {
      var p := SpawnPoint(side, t, width, height);
      roots := roots + [Root([p], true)];
    }

    /** `init`: twenty fresh roots, the i-th drawn from `sides[i]` and `ts[i]`. */
    method Init(sides: seq<int>, ts: seq<real>, width: real, height: real)
      requires |sides| == 20 && |ts| == 20
      modifies this
      ensures Valid() && |roots| == 20
      ensures forall k | 0 <= k < 20 :: roots[k] == Root([SpawnPoint(sides[k], ts[k], width, height)], true)
    {
      roots := [];
      var i := 0;
      while i < 20
        invariant 0 <= i <= 20 && Valid() && |roots| == i
        invariant forall k | 0 <= k < i :: roots[k] == Root([SpawnPoint(sides[k], ts[k], width, height)], true)
      {
        SpawnRoot(sides[i], ts[i], width, height);
        i := i + 1;
      }
    }

    /**
     * The body of the update loop for the root at index `k`: skip it when
     * inactive, stop it when its head has reached the target (reporting the
     * arrival), and otherwise push `next` onto its capped polyline.
     */
    method GrowAt(k: int, target: Point, next: Point) returns (arrived: bool)
      requires Valid() && 0 <= k < |roots|
      modifies this
      ensures Valid()
      ensures roots == old(roots)[k := GrowRoot(old(roots)[k], target, next)]
      ensures var r := old(roots)[k];
        arrived == (r.active && Reached(r.history[|r.history| - 1], target))
    {
      arrived := false;
      var r := roots[k];
      if !r.active {
        return;
      }
      var head := r.history[|r.history| - 1];
      if Reached(head, target) {
        roots := roots[k := r.(active := false)];
        arrived := true;
        return;
      }
      var h := r.history + [next];
      if |h| as real > MaxRootLength {
        h := h[1..];
      }
      roots := roots[k := r.(history := h)];
    }

    /**
     * `update`, with each root's next head position (the step of length 5
     * toward the target, turned by a random wiggle) given in `moves`.
     * Returns how many roots reached the target, which is how many delayed
     * respawns the scene schedules.
     */
    method Update(pointer: Option<Point>, width: real, height: real, moves: seq<Point>) returns (respawns: nat)
      requires Valid() && |moves| == |roots|
      modifies this
      ensures Valid() && |roots| == |old(roots)|
      ensures forall k | 0 <= k < |roots| ::
        roots[k] == GrowRoot(old(roots)[k], Target(pointer, width, height), moves[k])
      ensures respawns == Arrivals(old(roots), Target(pointer, width, height))
    {
      var target := Target(pointer, width, height);
      ghost var before := roots;
      respawns := 0;
      var k := 0;
      while k < |roots|
        invariant 0 <= k <= |roots| == |before| && Valid()
        invariant forall m | 0 <= m < k :: roots[m] == GrowRoot(before[m], target, moves[m])
        invariant forall m | k <= m < |roots| :: roots[m] == before[m]
        invariant respawns == Arrivals(before[..k], target)
      {
        assert before[..k + 1][..k] == before[..k];
        var arrived := GrowAt(k, target, moves[k]);
        if arrived {
          respawns := respawns + 1;
        }
        k := k + 1;
      }
      assert before[..k] == before;
      KeepLiveKeepsAll(roots);
      roots := KeepLive(roots);
    }
  }
}
